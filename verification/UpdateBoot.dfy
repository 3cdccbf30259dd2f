/** From the update machine to the next boot. */
module UpdateBoot {
  import opened Bytes
  import opened Flash
  import opened Manifest
  import opened PatchFormat
  import opened Pipeline
  import opened Slots
  import opened NorCopy
  import opened Swap
  import opened Verifier
  import opened BootSpec
  import FsmSpec
  import Fsm
  import Download
  import Resume

  // ---- A finished update ----

  /** A machine that wants to reboot, and the flash it leaves to a bootloader with the same slots and
      the same trust. */
  ghost predicate Handover(m: FsmSpec.Config, s: FsmSpec.Ctx, cfg: Setup, c0: seq<byte>) {
    && WellLaid(cfg, |c0|) && cfg.slots[0].bootable && !FirstBootDue(cfg, c0)
    && m.trust == cfg.trust && FsmSpec.Inv(m, s) && s.state == FsmSpec.Reboot
    && s.id < |cfg.slots| && Image(c0, cfg.slots[s.id]) == FsmSpec.TargetImage(m, s)
  }

  /** Every machine on a device hands over like that. */
  lemma MachineHandsOver(mc: Fsm.Machine, cfg: Setup)
    requires mc.Valid() && mc.state == FsmSpec.Reboot
    requires cfg.slots == mc.slots && cfg.trust == mc.trust
    requires WellLaid(cfg, |mc.d.cells|) && cfg.slots[0].bootable && !FirstBootDue(cfg, mc.d.cells)
    ensures Handover(mc.Cfg(), mc.Abs(), cfg, mc.d.cells)
  {}

  /** Writing a slot that is not bootable leaves the running one and its version as they were. */
  lemma RunningKept(cfg: Setup, c: seq<byte>, c0: seq<byte>, id: nat)
    requires WellLaid(cfg, |c|) && |c0| == |c| && cfg.slots[0].bootable && id < |cfg.slots| && !cfg.slots[id].bootable
    requires SameOutside(c, c0, Object(cfg.slots[id], WriteAll))
    ensures Running(cfg, c0) == Running(cfg, c)
    ensures Versions(c0, cfg.slots)[Running(cfg, c0)] == Versions(c, cfg.slots)[Running(cfg, c)]
  {
    hide Version, Pick;
    var vs, vs0, bs := Versions(c, cfg.slots), Versions(c0, cfg.slots), Bootables(cfg.slots);
    forall k | 0 <= k < |vs| && bs[k]
      ensures vs0[k] == vs[k]
    {
      SameSlot(c, c0, Object(cfg.slots[id], WriteAll), Object(cfg.slots[k], ReadOnly));
    }
    Choices(vs, bs);
    Choices(vs0, bs);
    BestIsUnique(vs, bs, true, Running(cfg, c), Running(cfg, c0));
  }

  /** An image no shorter than both verification buffers. */
  predicate LongEnoughFor(a: seq<byte>, bufferSize: nat)
    requires |a| >= SIZE
  {
    ImageOffset(a) + ImageSize(a) < TWO32 && FsmSpec.BUFFER_SIZE <= ImageSize(a) && 0 < bufferSize <= ImageSize(a)
  }

  /** Both buffers give the verdict of the same bytes. */
  lemma SameVerdict(trust: Trust, a: seq<byte>, bufferSize: nat)
    requires |a| >= SIZE && LongEnoughFor(a, bufferSize)
    ensures ObjectVerdict(trust, a, bufferSize) == Success <==> ObjectVerdict(trust, a, FsmSpec.BUFFER_SIZE) == Success
  {
    hide ImageOffset, ImageSize, Digest, ManifestVerdict, DigestVerdict;
    SameManifest(a, a[..SIZE]);
    VerdictMeans(trust, a, a[..SIZE], bufferSize);
    VerdictMeans(trust, a, a[..SIZE], FsmSpec.BUFFER_SIZE);
  }

  /** A target that is not bootable. The next boot finds the delivered image newer than the running one;
      if no slot before or above it is as new, it exchanges it with the oldest bootable slot and
      boots it there: same version, same bytes, still passing verification. */
  lemma DeliveredIsBooted(m: FsmSpec.Config, s: FsmSpec.Ctx, cfg: Setup, c0: seq<byte>, c2: seq<byte>, r: Result)
    requires Handover(m, s, cfg, c0) && BootStep(cfg, c0, c2, r)
    requires !cfg.slots[s.id].bootable && m.version == Versions(c0, cfg.slots)[Running(cfg, c0)]
    ensures Upgrades(cfg, c0)
    ensures NewestSlot(cfg, c0) == s.id && LongEnoughFor(Image(c0, cfg.slots[s.id]), cfg.bufferSize) ==>
              && r.Booted? && r.id < |cfg.slots| && r.id != s.id && cfg.slots[r.id].bootable
              && Verdict(cfg, c2, r.id) == Success
              && Versions(c2, cfg.slots)[r.id] == Version(FsmSpec.TargetImage(m, s))
              && Holds(Image(c2, cfg.slots[r.id]), Image(c0, cfg.slots[s.id]))
              && LeftmostBest(Versions(c0, cfg.slots), Bootables(cfg.slots), false, r.id)
  {
    hide Exchanged, ObjectVerdict, FsmSpec.TargetImage, Version, Versions, Running, NewestSlot, OldestBootable, Separate,
         FirstBootDue, Bootstrapped, ImageOffset, ImageSize;
    NotDue(cfg, c0);
    NewestIsNewer(cfg, c0, s.id);
    var a := Image(c0, cfg.slots[s.id]);
    if NewestSlot(cfg, c0) == s.id && LongEnoughFor(a, cfg.bufferSize) {
      var o := OldestBootable(cfg, c0);
      SameVerdict(cfg.trust, a, cfg.bufferSize);
      UpgradeSlots(cfg, c0);
      var b := Image(c0, cfg.slots[o]);
      LongEnough(cfg, c0, c2, s.id, o);
      SizeIs(a);
      VerdictSurvives(cfg, c0, c2, s.id, o);
      BootResult(cfg, c0, c2, r);
      HeadOfPrefix(Image(c2, cfg.slots[o]), a, FirmwareSize(a));
    }
  }

  /** A bootable target. If it is the first of the newest slots, the next boot verifies it and starts it
      in place, and changes nothing. */
  lemma DeliveredInPlace(m: FsmSpec.Config, s: FsmSpec.Ctx, cfg: Setup, c0: seq<byte>, c2: seq<byte>, r: Result)
    requires Handover(m, s, cfg, c0) && BootStep(cfg, c0, c2, r)
    requires cfg.slots[s.id].bootable && NewestSlot(cfg, c0) == s.id
    requires LongEnoughFor(Image(c0, cfg.slots[s.id]), cfg.bufferSize)
    ensures !Upgrades(cfg, c0) && c2 == c0 && r == Booted(s.id)
  {
    hide Exchanged, ObjectVerdict, FsmSpec.TargetImage, Version, Pick, Separate, FirstBootDue, Bootstrapped, LongEnoughFor;
    NotDue(cfg, c0);
    var vs, bs := Versions(c0, cfg.slots), Bootables(cfg.slots);
    Choices(vs, bs);
    BestIsUnique(vs, bs, true, s.id, Running(cfg, c0));
    SameVerdict(cfg.trust, Image(c0, cfg.slots[s.id]), cfg.bufferSize);
  }

  lemma SizeIs(a: seq<byte>)
    requires |a| >= SIZE && ImageOffset(a) + ImageSize(a) < TWO32
    ensures FirmwareSize(a) == ImageOffset(a) + ImageSize(a)
  {
    hide ImageOffset, ImageSize;
  }

  lemma NewestIsNewer(cfg: Setup, c0: seq<byte>, id: nat)
    requires WellLaid(cfg, |c0|) && id < |cfg.slots| && Bootstrapped(cfg, c0) == c0
    requires Version(Image(c0, cfg.slots[id])) > Versions(c0, cfg.slots)[Running(cfg, c0)]
    ensures Upgrades(cfg, c0)
  {
    hide Version, Running, Pick, Bootstrapped;
    Choices(Versions(c0, cfg.slots), Bootables(cfg.slots));
  }

  // ---- An update cut off ----

  predicate Erased(c: seq<byte>) {
    forall k :: 0 <= k < |c| ==> c[k] == ERASED
  }

  /** Until the buffer has been full, nothing of the update is in its slot: it is as erased as it was
      opened, so a reset then leaves an erased slot. */
  lemma CutOffErased(mc: Fsm.Machine)
    requires mc.Valid() && mc.state == FsmSpec.ReceiveFirmware && |mc.delivered| <= BUFFER_LEN
    ensures Erased(Image(mc.d.cells, mc.slots[mc.id]))
  {
    hide Fsm.Machine.Writing, FsmSpec.Inv;
    Download.FlashLags(mc);
    assert mc.delivered[..0] == [];
  }

  lemma {:induction false} FullWord(s: seq<byte>)
    requires forall k :: 0 <= k < |s| ==> s[k] == ERASED
    ensures FromLittleEndian(s) == Pow256(|s|) - 1
  {
    if s != [] {
      FullWord(s[1..]);
    }
  }

  /** What an erased manifest says. */
  lemma ErasedReads(c: seq<byte>)
    requires |c| >= SIZE && Erased(c)
    ensures Version(c) == 65535 && AppId(c) == 65535
    ensures ImageOffset(c) == TWO32 - 1 && ImageSize(c) == TWO32 - 1
    ensures Digest(c) == seq<byte>(32, _ => ERASED)
  {
    hide FromLittleEndian;
    PowersOf256();
    assert Pow256(2) == 65536;
    FullWord(c[VERSION_AT..VERSION_AT + 2]);
    FullWord(c[APPID_AT..APPID_AT + 2]);
    FullWord(c[OFFSET_AT..OFFSET_AT + 4]);
    FullWord(c[SIZE_AT..SIZE_AT + 4]);
  }

  /** An erased slot passes verification exactly if the device belongs to application 65535, a manifest
      of ones is signed, and nothing hashes to ones. */
  lemma ErasedVerdict(trust: Trust, c: seq<byte>, bufferSize: nat)
    requires |c| >= SIZE && Erased(c)
    ensures ObjectVerdict(trust, c, bufferSize) == Success
       <==> && trust.appid == 65535 && trust.signed(seq<byte>(SIZE, _ => ERASED))
            && trust.hash([]) == seq<byte>(32, _ => ERASED)
  {
    hide Version, AppId, ImageOffset, ImageSize, Digest;
    var m := c[..SIZE];
    ErasedReads(m);
    assert m == seq<byte>(SIZE, _ => ERASED) && m[..SIZE] == m;
  }

  lemma VersionBound(c: seq<byte>)
    requires |c| >= SIZE
    ensures Version(c) <= 65535
  {
    hide FromLittleEndian;
    assert Pow256(2) == 65536;
    FromLittleEndianBound(c[VERSION_AT..VERSION_AT + 2]);
  }

  /** An update cut off after its slot was erased. The erased slot reads as the newest there can be and
      does not pass verification, so the next boot starts nothing, unless a bootable slot also
      carries the highest version and passes. */
  lemma CutOffRefuses(cfg: Setup, c0: seq<byte>, c2: seq<byte>, r: Result, id: nat)
    requires WellLaid(cfg, |c0|) && cfg.slots[0].bootable && !FirstBootDue(cfg, c0) && BootStep(cfg, c0, c2, r)
    requires id < |cfg.slots| && Erased(Image(c0, cfg.slots[id])) && Verdict(cfg, c0, id) != Success
    requires forall k :: 0 <= k < id ==> Versions(c0, cfg.slots)[k] < 65535
    ensures c2 == c0
    ensures r.Booted? <==> Versions(c0, cfg.slots)[Running(cfg, c0)] == 65535 && Verdict(cfg, c0, Running(cfg, c0)) == Success
    ensures !r.Booted? && Versions(c0, cfg.slots)[Running(cfg, c0)] < 65535 ==> r == NewestInvalid
  {
    hide Exchanged, ObjectVerdict, Version, Pick, Separate, FirstBootDue, Bootstrapped, Erased;
    NotDue(cfg, c0);
    ErasedReads(Image(c0, cfg.slots[id]));
    var vs, bs := Versions(c0, cfg.slots), Bootables(cfg.slots);
    forall k | 0 <= k < |vs|
      ensures vs[k] <= 65535
    {
      VersionBound(Image(c0, cfg.slots[k]));
    }
    Choices(vs, bs);
    BestIsUnique(vs, seq(|vs|, _ => true), true, NewestSlot(cfg, c0), id);
  }

  // ---- An update that does not verify ----

  /** Whenever some image is newer than the running one, the next boot starts something if and only if
      the newest image passes verification. An update cut off later, or refused after its last byte,
      leaves its manifest in the slot and is such an image. */
  lemma NewestDecides(cfg: Setup, c0: seq<byte>, c2: seq<byte>, r: Result)
    requires WellLaid(cfg, |c0|) && BootStep(cfg, c0, c2, r) && Upgrades(cfg, c0)
    ensures r.Booted? <==> Verdict(cfg, c0, NewestSlot(cfg, c0)) == Success
    ensures !r.Booted? ==> r == NewestInvalid && c2 == c0
  {
    hide Exchanged, ObjectVerdict, Versions, Running, NewestSlot, OldestBootable, FirstBootDue, Bootstrapped;
    UpgradeIsNoFirstBoot(cfg, c0);
  }

  /** A slot whose manifest is newer than the running one and not signed, the newest of all: nothing is
      started. */
  lemma UnsignedRefused(cfg: Setup, c0: seq<byte>, c2: seq<byte>, r: Result, id: nat)
    requires WellLaid(cfg, |c0|) && cfg.slots[0].bootable && !FirstBootDue(cfg, c0) && BootStep(cfg, c0, c2, r)
    requires id < |cfg.slots| && NewestSlot(cfg, c0) == id
    requires Version(Image(c0, cfg.slots[id])) > Versions(c0, cfg.slots)[Running(cfg, c0)]
    requires !cfg.trust.signed(Image(c0, cfg.slots[id])[..SIZE])
    ensures r == NewestInvalid && c2 == c0
  {
    hide BootStep, Version, NewestSlot, Running, FirstBootDue, Bootstrapped, DigestVerdict, Versions;
    NotDue(cfg, c0);
    NewestIsNewer(cfg, c0, id);
    var m := Image(c0, cfg.slots[id])[..SIZE];
    assert m[..SIZE] == m;
    NewestDecides(cfg, c0, c2, r);
  }

  /** A complete download from a fresh session, on a device that runs any version but zero. With ideal
      signatures the machine refuses what it stored; and if the version is now the newest of all,
      the next boot refuses to start anything. */
  lemma ServedUpdateRefused(mc: Fsm.Machine, file: seq<byte>, msg: Resume.Msg, sign: seq<byte> -> Resume.signature,
                            payload: seq<byte>, cfg: Setup, c2: seq<byte>, r: Result)
    requires mc.Valid() && 0 < mc.version < 65536 && Resume.Ideal(mc.Cfg(), sign)
    requires |file| >= SIZE && Resume.ValidMsg(msg) && !Resume.Serves(file, msg) && msg.version == LittleEndian(mc.version, 2)
    requires var h := Resume.Personalised(file, msg, sign)[..SIZE];
             && FsmSpec.Accepted(mc.Cfg(), h)
             && Image(mc.d.cells, mc.slots[mc.id])
             == FsmSpec.SlotImage(Download.Size(mc.slots[mc.id]), FsmSpec.Zeroed(h) + payload)
    requires cfg.slots == mc.slots && cfg.trust == mc.trust && WellLaid(cfg, |mc.d.cells|) && cfg.slots[0].bootable
    requires !FirstBootDue(cfg, mc.d.cells) && BootStep(cfg, mc.d.cells, c2, r)
    requires mc.version == Versions(mc.d.cells, cfg.slots)[Running(cfg, mc.d.cells)] && NewestSlot(cfg, mc.d.cells) == mc.id
    ensures ObjectVerdict(mc.trust, Image(mc.d.cells, mc.slots[mc.id]), FsmSpec.BUFFER_SIZE) != Success
    ensures r == NewestInvalid && c2 == mc.d.cells
  {
    hide BootStep, Version, NewestSlot, Running, FirstBootDue, DigestVerdict, Versions, LittleEndian, FsmSpec.Zeroed,
         FsmSpec.Inv, Fsm.Machine.Writing, Resume.Personalised, Resume.Ideal, FsmSpec.SlotImage, ManifestVerdict;
    var h := Resume.Personalised(file, msg, sign)[..SIZE];
    var z, image := FsmSpec.Zeroed(h), Image(mc.d.cells, mc.slots[mc.id]);
    Resume.StoredUnsigned(mc.Cfg(), file, msg, sign);
    HeadIs(image, z, payload, Download.Size(mc.slots[mc.id]));
    FsmSpec.ZeroedFields(h);
    SameManifest(image, z);
    NotSigned(mc.trust, z);
    UnsignedRefused(cfg, mc.d.cells, c2, r, mc.id);
  }

  lemma NotSigned(trust: Trust, z: seq<byte>)
    requires |z| == SIZE && !trust.signed(z)
    ensures ManifestVerdict(trust, z) != Success
  {
    assert z[..SIZE] == z;
  }

  lemma HeadIs(image: seq<byte>, z: seq<byte>, payload: seq<byte>, size: nat)
    requires |z| == SIZE && image == FsmSpec.SlotImage(size, z + payload)
    ensures |image| >= SIZE && image[..SIZE] == z && z[..SIZE] == z
  {
    hide FsmSpec.SlotImage;
    var d := z + payload;
    assert image[..|d|] == d && image[..SIZE] == image[..|d|][..SIZE];
  }
}
