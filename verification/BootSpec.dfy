/** What a boot does to the flash and which slot it starts; what holds over sequences of boots. */
module BootSpec {
  import opened Bytes
  import opened Flash
  import opened Manifest
  import opened Slots
  import opened NorCopy
  import opened Swap
  import opened Verifier
  import PatchFormat

  /** `sizeof(bootloader_ctx)`, where its flags lie, and the flag of a first boot. */
  const CTX_SIZE: nat := 128
  const FLAGS_AT: nat := 127

  /** The bootloader's configuration and the flash layout. */
  datatype Setup = Setup(slots: seq<Slot>, ctx: Slot, swap: Slot, swapSize: nat, bufferSize: nat, trust: Trust, page: nat)

  /** Slots, context and swap object lie on a flash of `n` bytes and share no byte. */
  ghost predicate WellLaid(cfg: Setup, n: nat) {
    && cfg.slots != [] && Within(n, cfg.slots) && cfg.page > 0 && 0 < cfg.bufferSize
    && cfg.ctx.start + CTX_SIZE <= cfg.ctx.end <= n && cfg.swap.start <= cfg.swap.end <= n
    && Separate(cfg.ctx, cfg.swap)
    && (forall k :: 0 <= k < |cfg.slots| ==> Separate(cfg.slots[k], cfg.ctx) && Separate(cfg.slots[k], cfg.swap))
    && Disjoint(cfg.slots)
  }

  predicate FirstBootDue(cfg: Setup, cells: seq<byte>)
    requires cfg.ctx.start + CTX_SIZE <= |cells|
  {
    cells[cfg.ctx.start + FLAGS_AT] % 2 == 1
  }

  /** That is, if the flag of value one is set. */
  lemma FirstBootFlag(cfg: Setup, cells: seq<byte>)
    requires cfg.ctx.start + CTX_SIZE <= |cells|
    ensures FirstBootDue(cfg, cells) <==> And(cells[cfg.ctx.start + FLAGS_AT], 1) == 1
  {
    hide AndBits;
    AndBitsOne(cells[cfg.ctx.start + FLAGS_AT], 8);
  }

  /** The newest bootable slot. */
  function Running(cfg: Setup, cells: seq<byte>): (k: nat)
    requires cfg.slots != [] && Within(|cells|, cfg.slots)
    ensures k < |cfg.slots|
  {
    Newest(Versions(cells, cfg.slots), Bootables(cfg.slots), true)
  }

  /** An address in the manifest of a slot other than `keep`. */
  ghost predicate InOtherHead(slots: seq<Slot>, keep: nat, a: nat) {
    exists k :: 0 <= k < |slots| && k != keep && slots[k].start <= a < slots[k].start + SIZE
  }

  /** The flash after the bootstrap phase: on a first boot the manifests of all slots but the
      running one are zero, and so are the flags. */
  ghost function Bootstrapped(cfg: Setup, cells: seq<byte>): (r: seq<byte>)
    requires WellLaid(cfg, |cells|)
    ensures |r| == |cells|
    ensures !FirstBootDue(cfg, cells) ==> r == cells
    ensures FirstBootDue(cfg, cells) ==> forall a :: 0 <= a < |cells| ==>
              r[a] == if InOtherHead(cfg.slots, Running(cfg, cells), a) || a == cfg.ctx.start + FLAGS_AT then 0 else cells[a]
  {
    if !FirstBootDue(cfg, cells) then cells
    else
      seq<byte>(|cells|, a requires 0 <= a < |cells| =>
          if InOtherHead(cfg.slots, Running(cfg, cells), a) || a == cfg.ctx.start + FLAGS_AT then 0 else cells[a])
  }

  /** Two slots exchanged their images, and nothing else changed but the swap object. */
  ghost predicate Exchanged(cfg: Setup, c1: seq<byte>, c2: seq<byte>, i: nat, j: nat)
    requires WellLaid(cfg, |c1|) && |c2| == |c1| && i < |cfg.slots| && j < |cfg.slots|
  {
    var a, b := Image(c1, cfg.slots[i]), Image(c1, cfg.slots[j]);
    var m := SwapLength(a, b);
    && m <= |a| && m <= |b| && RoundUp(m, cfg.page) <= |a| && RoundUp(m, cfg.page) <= |b|
    && Image(c2, cfg.slots[i]) == TakenOver(a, b, m, cfg.page)
    && Image(c2, cfg.slots[j]) == TakenOver(b, a, m, cfg.page)
    && SameOutsideAll(c1, c2, Object(cfg.slots[i], ReadOnly), Object(cfg.slots[j], ReadOnly), Object(cfg.swap, ReadOnly))
  }

  datatype Result = Booted(id: nat) | NewestInvalid | RunningInvalid

  function Verdict(cfg: Setup, cells: seq<byte>, k: nat): PullError
    requires Within(|cells|, cfg.slots) && k < |cfg.slots|
  {
    ObjectVerdict(cfg.trust, Image(cells, cfg.slots[k]), cfg.bufferSize)
  }

  function NewestSlot(cfg: Setup, cells: seq<byte>): (k: nat)
    requires cfg.slots != [] && Within(|cells|, cfg.slots)
    ensures k < |cfg.slots|
  {
    Newest(Versions(cells, cfg.slots), Bootables(cfg.slots), false)
  }

  function OldestBootable(cfg: Setup, cells: seq<byte>): (k: nat)
    requires cfg.slots != [] && Within(|cells|, cfg.slots)
    ensures k < |cfg.slots|
  {
    Oldest(Versions(cells, cfg.slots), Bootables(cfg.slots), true)
  }

  /** Whether a boot finds an image newer than the running one. */
  ghost predicate Upgrades(cfg: Setup, c0: seq<byte>)
    requires WellLaid(cfg, |c0|)
  {
    var c1 := Bootstrapped(cfg, c0);
    Versions(c0, cfg.slots)[Running(cfg, c0)] < Versions(c1, cfg.slots)[NewestSlot(cfg, c1)]
  }

  /** One boot, by a driver that stops at the first failure: bootstrap; if some image is newer than
      the running one, verify it and exchange it with the oldest bootable slot; otherwise verify
      the running one; boot. */
  ghost predicate BootStep(cfg: Setup, c0: seq<byte>, c2: seq<byte>, r: Result)
    requires WellLaid(cfg, |c0|)
  {
    && |c2| == |c0|
    && var c1 := Bootstrapped(cfg, c0);
       if Upgrades(cfg, c0) then
         if Verdict(cfg, c1, NewestSlot(cfg, c1)) == Success then
           Exchanged(cfg, c1, c2, NewestSlot(cfg, c1), OldestBootable(cfg, c1)) && r == Booted(OldestBootable(cfg, c1))
         else c2 == c1 && r == NewestInvalid
       else
         && c2 == c1
         && r == if Verdict(cfg, c1, Running(cfg, c0)) == Success then Booted(Running(cfg, c0)) else RunningInvalid
  }

  // ---- The bootstrap phase ----

  lemma ZeroField(m: seq<byte>, at: nat, n: nat)
    requires at + n <= SIZE <= |m| && forall a :: 0 <= a < SIZE ==> m[a] == 0
    ensures Field(m, at, n) == 0
  {
    ZeroWord(m[at..at + n]);
  }

  lemma {:induction false} ZeroWord(s: seq<byte>)
    requires forall k :: 0 <= k < |s| ==> s[k] == 0
    ensures PatchFormat.FromLittleEndian(s) == 0
  {
    if s != [] {
      ZeroWord(s[1..]);
    }
  }

  /** A first boot blanks every other slot's manifest and leaves the running slot alone. */
  lemma FirstBootBlanks(cfg: Setup, c0: seq<byte>, k: nat)
    requires WellLaid(cfg, |c0|) && FirstBootDue(cfg, c0) && k < |cfg.slots|
    ensures var c1 := Bootstrapped(cfg, c0);
            if k == Running(cfg, c0) then Image(c1, cfg.slots[k]) == Image(c0, cfg.slots[k])
            else forall a :: 0 <= a < SIZE ==> Image(c1, cfg.slots[k])[a] == 0
  {
    hide Running;
    var c1, s, keep := Bootstrapped(cfg, c0), cfg.slots[k], Running(cfg, c0);
    if k == keep {
      forall a | s.start <= a < s.end
        ensures c1[a] == c0[a]
      {
        assert !InOtherHead(cfg.slots, keep, a);
      }
    } else {
      forall a | 0 <= a < SIZE
        ensures Image(c1, s)[a] == 0
      {
        assert InOtherHead(cfg.slots, keep, s.start + a);
      }
    }
  }

  lemma BlankManifest(c: seq<byte>)
    requires |c| >= SIZE && forall a :: 0 <= a < SIZE ==> c[a] == 0
    ensures Version(c) == 0 && FirmwareSize(c) == 0
  {
    ZeroField(c, VERSION_AT, 2);
    ZeroField(c, SIZE_AT, 4);
    ZeroField(c, OFFSET_AT, 4);
  }

  /** After it, every other slot reads version zero. */
  lemma OthersReadZero(cfg: Setup, c0: seq<byte>)
    requires WellLaid(cfg, |c0|) && FirstBootDue(cfg, c0)
    ensures var vs := Versions(Bootstrapped(cfg, c0), cfg.slots);
            forall k :: 0 <= k < |vs| ==> vs[k] == if k == Running(cfg, c0) then Versions(c0, cfg.slots)[k] else 0
  {
    hide Version, FirstBootDue, Bootstrapped, Running;
    var c1 := Bootstrapped(cfg, c0);
    forall k | 0 <= k < |cfg.slots|
      ensures Versions(c1, cfg.slots)[k] == if k == Running(cfg, c0) then Versions(c0, cfg.slots)[k] else 0
    {
      FirstBootBlanks(cfg, c0, k);
      if k != Running(cfg, c0) {
        BlankManifest(Image(c1, cfg.slots[k]));
      }
    }
  }

  /** The running slot's version survives the bootstrap phase. */
  lemma RunningSurvives(cfg: Setup, c0: seq<byte>)
    requires WellLaid(cfg, |c0|)
    ensures var c1 := Bootstrapped(cfg, c0);
            Image(c1, cfg.slots[Running(cfg, c0)]) == Image(c0, cfg.slots[Running(cfg, c0)])
  {
    hide Running;
    if FirstBootDue(cfg, c0) {
      FirstBootBlanks(cfg, c0, Running(cfg, c0));
    }
  }

  /** A first boot never upgrades: whatever the other slots held, the running slot is the one
      booted, or nothing is. */
  lemma FirstBootNeverUpgrades(cfg: Setup, c0: seq<byte>, c2: seq<byte>, r: Result)
    requires WellLaid(cfg, |c0|) && FirstBootDue(cfg, c0) && BootStep(cfg, c0, c2, r)
    ensures c2 == Bootstrapped(cfg, c0)
    ensures r == if Verdict(cfg, c0, Running(cfg, c0)) == Success then Booted(Running(cfg, c0)) else RunningInvalid
  {
    hide Exchanged, Versions, Running, ObjectVerdict, NewestSlot, OldestBootable, Bootstrapped, FirstBootDue;
    OthersReadZero(cfg, c0);
    RunningSurvives(cfg, c0);
  }

  /** So an upgrade starts from the flash as it was found. */
  lemma UpgradeIsNoFirstBoot(cfg: Setup, c0: seq<byte>)
    requires WellLaid(cfg, |c0|) && Upgrades(cfg, c0)
    ensures !FirstBootDue(cfg, c0) && Bootstrapped(cfg, c0) == c0
  {
    hide Versions, Running, NewestSlot;
    if FirstBootDue(cfg, c0) {
      OthersReadZero(cfg, c0);
    }
  }

  // ---- The exchange ----

  /** The exchange of two images reaches past the version in their manifests. */
  predicate Covers(a: seq<byte>, b: seq<byte>)
    requires |a| >= SIZE && |b| >= SIZE
  {
    VERSION_AT + 2 <= FirmwareSize(a) || VERSION_AT + 2 <= FirmwareSize(b)
  }

  /** The two slots hold each other's bytes, and every other slot holds what it held. */
  lemma ExchangedImages(cfg: Setup, c1: seq<byte>, c2: seq<byte>, i: nat, j: nat, k: nat)
    requires WellLaid(cfg, |c1|) && |c2| == |c1| && i < |cfg.slots| && j < |cfg.slots| && k < |cfg.slots| && i != j
    requires Exchanged(cfg, c1, c2, i, j)
    ensures var m := SwapLength(Image(c1, cfg.slots[i]), Image(c1, cfg.slots[j]));
            && (k == i ==> Image(c2, cfg.slots[k])[..m] == Image(c1, cfg.slots[j])[..m])
            && (k == j ==> Image(c2, cfg.slots[k])[..m] == Image(c1, cfg.slots[i])[..m])
            && (k != i && k != j ==> Image(c2, cfg.slots[k]) == Image(c1, cfg.slots[k]))
  {
    hide TakenOver, RoundUp, SwapLength;
    var a, b := Image(c1, cfg.slots[i]), Image(c1, cfg.slots[j]);
    var m := SwapLength(a, b);
    TakenHead(a, b, m, cfg.page);
    TakenHead(b, a, m, cfg.page);
  }

  /** Each of the two slots holds the image the other announced, to its last byte. */
  lemma ExchangedTrade(cfg: Setup, c1: seq<byte>, c2: seq<byte>, i: nat, j: nat)
    requires WellLaid(cfg, |c1|) && |c2| == |c1| && i < |cfg.slots| && j < |cfg.slots| && Exchanged(cfg, c1, c2, i, j)
    ensures Traded(Image(c1, cfg.slots[i]), Image(c1, cfg.slots[j]), Image(c2, cfg.slots[i]), Image(c2, cfg.slots[j]))
  {
    hide TakenOver, RoundUp, FirmwareSize;
    var a, b := Image(c1, cfg.slots[i]), Image(c1, cfg.slots[j]);
    HoldsTaken(a, b, SwapLength(a, b), cfg.page);
    HoldsTaken(b, a, SwapLength(a, b), cfg.page);
  }

  lemma ExchangedVersions(cfg: Setup, c1: seq<byte>, c2: seq<byte>, i: nat, j: nat)
    requires WellLaid(cfg, |c1|) && |c2| == |c1| && i < |cfg.slots| && j < |cfg.slots| && i != j
    requires Exchanged(cfg, c1, c2, i, j) && Covers(Image(c1, cfg.slots[i]), Image(c1, cfg.slots[j]))
    ensures var vs := Versions(c1, cfg.slots);
            Versions(c2, cfg.slots) == vs[i := vs[j]][j := vs[i]]
  {
    hide Exchanged, SwapLength, Version, WellLaid;
    LongEnough(cfg, c1, c2, i, j);
    var vs, vs' := Versions(c1, cfg.slots), Versions(c2, cfg.slots);
    forall k | 0 <= k < |vs|
      ensures vs'[k] == vs[i := vs[j]][j := vs[i]][k]
    {
      ExchangedImages(cfg, c1, c2, i, j, k);
      if k == i || k == j {
        var m := SwapLength(Image(c1, cfg.slots[i]), Image(c1, cfg.slots[j]));
        HeadOfPrefix(Image(c2, cfg.slots[k]), Image(c1, cfg.slots[if k == i then j else i]), m);
      }
    }
  }

  lemma LongEnough(cfg: Setup, c1: seq<byte>, c2: seq<byte>, i: nat, j: nat)
    requires WellLaid(cfg, |c1|) && |c2| == |c1| && i < |cfg.slots| && j < |cfg.slots|
    requires Exchanged(cfg, c1, c2, i, j)
    ensures var a, b := Image(c1, cfg.slots[i]), Image(c1, cfg.slots[j]);
            SwapLength(a, b) <= |a| && SwapLength(a, b) <= |b|
    ensures Within(|c2|, cfg.slots)
  {
    hide TakenOver, RoundUp, FirmwareSize;
  }

  lemma HeadOfPrefix(a: seq<byte>, b: seq<byte>, m: nat)
    requires SIZE <= |a| && SIZE <= |b| && VERSION_AT + 2 <= m <= |a| && m <= |b| && a[..m] == b[..m]
    ensures Version(a) == Version(b)
  {
    SameSlice(a, b, m, VERSION_AT, VERSION_AT + 2);
  }

  // ---- What is booted ----

  /** The three slots a boot chooses. */
  lemma BootChoices(cfg: Setup, c: seq<byte>)
    requires WellLaid(cfg, |c|) && cfg.slots[0].bootable
    ensures var vs, bs := Versions(c, cfg.slots), Bootables(cfg.slots);
            && LeftmostBest(vs, bs, true, Running(cfg, c))
            && LeftmostBest(vs, seq(|vs|, _ => true), true, NewestSlot(cfg, c))
            && LeftmostBest(vs, bs, false, OldestBootable(cfg, c))
  {
    hide Pick, LeftmostBest, Versions;
    Choices(Versions(c, cfg.slots), Bootables(cfg.slots));
  }

  /** A boot upgrades if and only if no first boot is due and some slot is strictly newer than every
      bootable one. */
  lemma UpgradesIff(cfg: Setup, c0: seq<byte>)
    requires WellLaid(cfg, |c0|) && cfg.slots[0].bootable
    ensures Upgrades(cfg, c0)
       <==> && !FirstBootDue(cfg, c0)
            && exists k :: 0 <= k < |cfg.slots| && NewerThanBootables(cfg, c0, k)
  {
    hide Pick, Versions, FirstBootDue, Running, NewestSlot;
    BootChoices(cfg, c0);
    if Upgrades(cfg, c0) {
      UpgradeIsNoFirstBoot(cfg, c0);
      assert NewerThanBootables(cfg, c0, NewestSlot(cfg, c0));
    } else if !FirstBootDue(cfg, c0) {
      NotDue(cfg, c0);
    }
  }

  ghost predicate NewerThanBootables(cfg: Setup, c: seq<byte>, k: nat)
    requires Within(|c|, cfg.slots) && k < |cfg.slots|
  {
    var vs := Versions(c, cfg.slots);
    forall j :: 0 <= j < |vs| && cfg.slots[j].bootable ==> vs[j] < vs[k]
  }

  /** The exchanged slots differ, and only the destination is bootable. */
  lemma UpgradeSlots(cfg: Setup, c0: seq<byte>)
    requires WellLaid(cfg, |c0|) && cfg.slots[0].bootable && Upgrades(cfg, c0)
    ensures var vs, bs := Versions(c0, cfg.slots), Bootables(cfg.slots);
            var n, o := NewestSlot(cfg, c0), OldestBootable(cfg, c0);
            && n != o && bs[o] && !bs[n]
            && (forall k :: 0 <= k < |vs| ==> vs[k] <= vs[n]) && (forall k :: 0 <= k < |vs| && bs[k] ==> vs[k] < vs[n])
  {
    hide Pick, Versions, Bootstrapped, FirstBootDue;
    UpgradeIsNoFirstBoot(cfg, c0);
    var vs, bs := Versions(c0, cfg.slots), Bootables(cfg.slots);
    Choices(vs, bs);
    NewerIsNotBootable(vs, bs);
  }

  /** After an upgrade the destination is the newest of all slots, and the only bootable slot with
      its version. */
  lemma AfterUpgrade(cfg: Setup, c0: seq<byte>, c2: seq<byte>, r: Result)
    requires WellLaid(cfg, |c0|) && cfg.slots[0].bootable && Upgrades(cfg, c0) && BootStep(cfg, c0, c2, r) && r.Booted?
    requires Covers(Image(c0, cfg.slots[NewestSlot(cfg, c0)]), Image(c0, cfg.slots[OldestBootable(cfg, c0)]))
    ensures var vs, bs := Versions(c2, cfg.slots), Bootables(cfg.slots);
            && r.id < |vs| && LeftmostBest(vs, bs, true, r.id)
            && forall k :: 0 <= k < |vs| ==> vs[k] <= vs[r.id]
  {
    hide Versions, Bootstrapped, FirstBootDue, Exchanged, NewestSlot, OldestBootable, Covers, ObjectVerdict, Separate;
    UpgradeIsNoFirstBoot(cfg, c0);
    UpgradeSlots(cfg, c0);
    ExchangedVersions(cfg, c0, c2, NewestSlot(cfg, c0), OldestBootable(cfg, c0));
  }

  /** Without an upgrade the running slot stays the newest of all. */
  lemma AfterPlainBoot(cfg: Setup, c0: seq<byte>, c2: seq<byte>, r: Result)
    requires WellLaid(cfg, |c0|) && cfg.slots[0].bootable && !Upgrades(cfg, c0) && BootStep(cfg, c0, c2, r) && r.Booted?
    ensures var vs, bs := Versions(c2, cfg.slots), Bootables(cfg.slots);
            && r.id < |vs| && LeftmostBest(vs, bs, true, r.id)
            && forall k :: 0 <= k < |vs| ==> vs[k] <= vs[r.id]
  {
    hide Version, Bootstrapped, Exchanged, OldestBootable, ObjectVerdict, Separate, Pick;
    var vs0, vs, bs := Versions(c0, cfg.slots), Versions(c2, cfg.slots), Bootables(cfg.slots);
    Choices(vs0, bs);
    Choices(vs, bs);
    RunningSurvives(cfg, c0);
    LowerElsewhere(cfg, c0);
  }

  lemma LowerElsewhere(cfg: Setup, c0: seq<byte>)
    requires WellLaid(cfg, |c0|)
    ensures var vs0, vs1 := Versions(c0, cfg.slots), Versions(Bootstrapped(cfg, c0), cfg.slots);
            forall k :: 0 <= k < |vs0| ==> vs1[k] == vs0[k] || (k != Running(cfg, c0) && vs1[k] == 0)
  {
    hide Versions, Running;
    if FirstBootDue(cfg, c0) {
      OthersReadZero(cfg, c0);
    }
  }

  /** An image that ends below 4 GB and is no shorter than the verification buffer. */
  predicate WholeImage(a: seq<byte>, bufferSize: nat)
    requires |a| >= SIZE
  {
    ImageOffset(a) + ImageSize(a) < TWO32 && bufferSize <= ImageSize(a)
  }

  /** An image found newer is exchanged with its whole manifest, ends below 4 GB, and is no shorter
      than the verification buffer. The vendor's tool and the bootloader's configuration see to it;
      nothing on the device checks it. */
  ghost predicate Sound(cfg: Setup, c0: seq<byte>)
    requires WellLaid(cfg, |c0|)
  {
    Upgrades(cfg, c0) ==>
      var a, b := Image(c0, cfg.slots[NewestSlot(cfg, c0)]), Image(c0, cfg.slots[OldestBootable(cfg, c0)]);
      (SIZE <= FirmwareSize(a) || SIZE <= FirmwareSize(b)) && WholeImage(a, cfg.bufferSize)
  }

  /** The exchange of a boot, if any, reaches past the versions. */
  ghost predicate Covered(cfg: Setup, c0: seq<byte>)
    requires WellLaid(cfg, |c0|)
  {
    Upgrades(cfg, c0) ==>
      Covers(Image(c0, cfg.slots[NewestSlot(cfg, c0)]), Image(c0, cfg.slots[OldestBootable(cfg, c0)]))
  }

  /** No slot has a higher version. */
  ghost predicate HoldsNewest(cfg: Setup, cells: seq<byte>, id: nat)
    requires Within(|cells|, cfg.slots) && id < |cfg.slots|
  {
    var vs := Versions(cells, cfg.slots); forall k :: 0 <= k < |vs| ==> vs[k] <= vs[id]
  }

  /** Without an upgrade a boot starts the leftmost newest bootable slot. An upgrade starts the leftmost
      oldest of them: that slot then holds the newest image of all, which had passed verification, and
      the slot it came from holds the older image, each to its last byte. If the exchange reached past
      the versions, the slot started has the newest version of all; and the image passes verification
      where it is now, if the one found newer was sound. */
  lemma BootResult(cfg: Setup, c0: seq<byte>, c2: seq<byte>, r: Result)
    requires WellLaid(cfg, |c0|) && cfg.slots[0].bootable && BootStep(cfg, c0, c2, r) && r.Booted?
    ensures r.id < |cfg.slots| && cfg.slots[r.id].bootable
    ensures LeftmostBest(Versions(c0, cfg.slots), Bootables(cfg.slots), !Upgrades(cfg, c0), r.id)
    ensures Upgrades(cfg, c0) ==> Verdict(cfg, c0, NewestSlot(cfg, c0)) == Success && HoldsNewest(cfg, c0, NewestSlot(cfg, c0))
    ensures Upgrades(cfg, c0) ==>
              var from, to := cfg.slots[NewestSlot(cfg, c0)], cfg.slots[r.id];
              Traded(Image(c0, from), Image(c0, to), Image(c2, from), Image(c2, to))
    ensures Covered(cfg, c0) ==> HoldsNewest(cfg, c2, r.id)
    ensures Sound(cfg, c0) ==> Verdict(cfg, c2, r.id) == Success
  {
    hide Versions, Bootstrapped, Exchanged, NewestSlot, OldestBootable, ObjectVerdict, Separate, FirstBootDue, Running, Covers,
         Traded;
    BootChoices(cfg, c0);
    if Upgrades(cfg, c0) {
      UpgradeIsNoFirstBoot(cfg, c0);
      UpgradeSlots(cfg, c0);
      ExchangedTrade(cfg, c0, c2, NewestSlot(cfg, c0), OldestBootable(cfg, c0));
      if Covered(cfg, c0) {
        AfterUpgrade(cfg, c0, c2, r);
      }
      if Sound(cfg, c0) {
        VerdictSurvives(cfg, c0, c2, NewestSlot(cfg, c0), OldestBootable(cfg, c0));
      }
    } else {
      AfterPlainBoot(cfg, c0, c2, r);
    }
  }

  /** The image a boot replaces stays usable: the slot the newer image came from holds it, with the
      verdict it had. */
  lemma OlderImageKept(cfg: Setup, c0: seq<byte>, c2: seq<byte>, r: Result)
    requires WellLaid(cfg, |c0|) && cfg.slots[0].bootable && BootStep(cfg, c0, c2, r) && r.Booted? && Upgrades(cfg, c0)
    ensures r.id < |cfg.slots|
    ensures var from, b := NewestSlot(cfg, c0), Image(c0, cfg.slots[r.id]);
            && Holds(Image(c2, cfg.slots[from]), b)
            && (SIZE <= FirmwareSize(b) && WholeImage(b, cfg.bufferSize) ==> Verdict(cfg, c2, from) == Verdict(cfg, c0, r.id))
  {
    hide Versions, Bootstrapped, Exchanged, NewestSlot, OldestBootable, ObjectVerdict, Separate, FirstBootDue, Running, Holds,
         WholeImage, FirmwareSize;
    UpgradeIsNoFirstBoot(cfg, c0);
    UpgradeSlots(cfg, c0);
    ExchangedTrade(cfg, c0, c2, NewestSlot(cfg, c0), OldestBootable(cfg, c0));
    if SIZE <= FirmwareSize(Image(c0, cfg.slots[r.id])) {
      VerdictSurvives(cfg, c0, c2, NewestSlot(cfg, c0), OldestBootable(cfg, c0));
    }
  }

  /** Whenever some bootable slot is strictly older than the running one, a boot leaves the running slot
      as it was, upgrade or not, and whatever its outcome. */
  lemma RunningSpared(cfg: Setup, c0: seq<byte>, c2: seq<byte>, r: Result, older: nat)
    requires WellLaid(cfg, |c0|) && cfg.slots[0].bootable && BootStep(cfg, c0, c2, r)
    requires older < |cfg.slots| && cfg.slots[older].bootable
    requires Versions(c0, cfg.slots)[older] < Versions(c0, cfg.slots)[Running(cfg, c0)]
    ensures Image(c2, cfg.slots[Running(cfg, c0)]) == Image(c0, cfg.slots[Running(cfg, c0)])
  {
    hide Versions, Bootstrapped, Exchanged, NewestSlot, OldestBootable, ObjectVerdict, Separate, FirstBootDue, Running;
    BootChoices(cfg, c0);
    RunningSurvives(cfg, c0);
    if Upgrades(cfg, c0) && r.Booted? {
      UpgradeIsNoFirstBoot(cfg, c0);
      UpgradeSlots(cfg, c0);
      assert Running(cfg, c0) != OldestBootable(cfg, c0);
      ExchangedImages(cfg, c0, c2, NewestSlot(cfg, c0), OldestBootable(cfg, c0), Running(cfg, c0));
    }
  }

  lemma VerdictSurvives(cfg: Setup, c1: seq<byte>, c2: seq<byte>, i: nat, j: nat)
    requires WellLaid(cfg, |c1|) && |c2| == |c1| && i < |cfg.slots| && j < |cfg.slots| && i != j
    requires Exchanged(cfg, c1, c2, i, j)
    requires var a, b := Image(c1, cfg.slots[i]), Image(c1, cfg.slots[j]);
             SIZE <= FirmwareSize(a) || SIZE <= FirmwareSize(b)
    ensures WholeImage(Image(c1, cfg.slots[i]), cfg.bufferSize) ==> Verdict(cfg, c2, j) == Verdict(cfg, c1, i)
    ensures WholeImage(Image(c1, cfg.slots[j]), cfg.bufferSize) ==> Verdict(cfg, c2, i) == Verdict(cfg, c1, j)
  {
    hide Exchanged, ObjectVerdict, ImageSize, ImageOffset;
    var a, b := Image(c1, cfg.slots[i]), Image(c1, cfg.slots[j]);
    LongEnough(cfg, c1, c2, i, j);
    ExchangedImages(cfg, c1, c2, i, j, i);
    ExchangedImages(cfg, c1, c2, i, j, j);
    SizesBounded(a, b);
    if WholeImage(a, cfg.bufferSize) {
      VerdictTravels(cfg.trust, a, Image(c2, cfg.slots[j]), SwapLength(a, b), cfg.bufferSize);
    }
    if WholeImage(b, cfg.bufferSize) {
      VerdictTravels(cfg.trust, b, Image(c2, cfg.slots[i]), SwapLength(a, b), cfg.bufferSize);
    }
  }

  lemma SizesBounded(a: seq<byte>, b: seq<byte>)
    requires |a| >= SIZE && |b| >= SIZE
    ensures SwapLength(a, b) < TWO32
  {}

  // ---- Sequences of boots ----

  /** No boot leaves a first boot due, whatever its outcome. */
  lemma NoFirstBootLeft(cfg: Setup, c0: seq<byte>, c2: seq<byte>, r: Result)
    requires WellLaid(cfg, |c0|) && BootStep(cfg, c0, c2, r)
    ensures |c2| == |c0| && !FirstBootDue(cfg, c2)
  {
    hide Versions, ObjectVerdict, TakenOver, SwapLength, NewestSlot, OldestBootable, Running, InOtherHead;
    var at := cfg.ctx.start + FLAGS_AT;
    assert Bootstrapped(cfg, c0)[at] % 2 == 0;
  }

  /** A boot right after a successful one, with nothing written in between, exchanges nothing and
      starts the same slot, unless the image exchanged does not pass verification where it is now. */
  lemma BootIsStable(cfg: Setup, c0: seq<byte>, c2: seq<byte>, r: Result, c3: seq<byte>, r': Result)
    requires WellLaid(cfg, |c0|) && cfg.slots[0].bootable && BootStep(cfg, c0, c2, r) && r.Booted? && Covered(cfg, c0)
    requires BootStep(cfg, c2, c3, r')
    ensures r.id < |cfg.slots| && c3 == c2
    ensures r' == if Verdict(cfg, c2, r.id) == Success then r else RunningInvalid
    ensures Sound(cfg, c0) ==> r' == r
  {
    hide Versions, Exchanged, Pick, ObjectVerdict, Separate, FirstBootDue, Sound, Covers;
    BootResult(cfg, c0, c2, r);
    NoFirstBootLeft(cfg, c0, c2, r);
    var vs, bs := Versions(c2, cfg.slots), Bootables(cfg.slots);
    if Upgrades(cfg, c0) {
      AfterUpgrade(cfg, c0, c2, r);
    } else {
      AfterPlainBoot(cfg, c0, c2, r);
    }
    Choices(vs, bs);
    BestIsUnique(vs, bs, true, r.id, Running(cfg, c2));
  }

  datatype Boot = Boot(before: seq<byte>, after: seq<byte>, result: Result)

  /** Boots in a row. Between two of them anything may happen to the slots, but nobody else writes
      the bootloader's context. */
  ghost predicate History(cfg: Setup, run: seq<Boot>) {
    && (forall i :: 0 <= i < |run| ==> WellLaid(cfg, |run[i].before|) && BootStep(cfg, run[i].before, run[i].after, run[i].result))
    && (forall i :: 0 < i < |run| ==>
          run[i].before[cfg.ctx.start..cfg.ctx.end] == run[i - 1].after[cfg.ctx.start..cfg.ctx.end])
  }

  /** Over any sequence of boots, the first-boot branch is taken by the first one at most. */
  lemma FirstBootHappensOnce(cfg: Setup, run: seq<Boot>, i: nat)
    requires History(cfg, run) && 0 < i < |run|
    ensures !FirstBootDue(cfg, run[i].before) && Bootstrapped(cfg, run[i].before) == run[i].before
  {
    hide BootStep, Bootstrapped, Separate;
    var last := run[i - 1];
    NoFirstBootLeft(cfg, last.before, last.after, last.result);
    var b, a := run[i].before[cfg.ctx.start..cfg.ctx.end], last.after[cfg.ctx.start..cfg.ctx.end];
    assert b[FLAGS_AT] == a[FLAGS_AT];
    NotDue(cfg, run[i].before);
  }

  lemma NotDue(cfg: Setup, cells: seq<byte>)
    requires WellLaid(cfg, |cells|) && !FirstBootDue(cfg, cells)
    ensures Bootstrapped(cfg, cells) == cells
  {}
}
