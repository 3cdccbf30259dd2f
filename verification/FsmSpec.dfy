/** The update state machine: what each call does, and what holds over every run. */
module FsmSpec {
  import opened Bytes
  import opened Manifest
  import opened PatchFormat
  import opened Verifier
  import Flash

  datatype State = Clean | Idle | StartUpdate | ReceiveManifest | VerifyManifest | ReceiveFirmware | VerifyFirmware | Reboot

  datatype Error =
    | Ok | InvalidVersion | InvalidState | RngFailed | BadSignature | InvalidSize | Verification(why: PullError)

  const VERSION_LEN: nat := 2
  const MSG_LEN: nat := 16
  const BUFFER_SIZE: nat := 1024

  /** What does not change: the running version, the trusted keys and the length of each slot. */
  datatype Config = Config(version: nat, trust: Trust, sizes: seq<nat>)

  /** What the outside contributes to a call: the random generator, the oldest slot at that moment,
      and what verification leaves in the buffer it shares with the manifest. */
  datatype Env = Env(rngOk: bool, oldest: nat, scratch: seq<byte>)

  /** The machine's fields, the manifest buffer, and everything delivered to the target slot since
      it was erased. */
  datatype Ctx = Ctx(state: State, processed: nat, expected: nat, id: nat, mt: seq<byte>, delivered: seq<byte>)

  datatype Outcome = Outcome(s: Ctx, err: Error)

  /** The manifest with `diff_version` forced to zero, and everything else as received. */
  function Zeroed(m: seq<byte>): (z: seq<byte>)
    requires |m| == SIZE
    ensures |z| == SIZE
  {
    m[DIFF_VERSION_AT := 0][DIFF_VERSION_AT + 1 := 0]
  }

  function Expected(m: seq<byte>): nat
    requires |m| >= SIZE
  {
    (ImageOffset(m) + PropSize(m)) % TWO32
  }

  predicate Accepted(cfg: Config, m: seq<byte>)
    requires |m| == SIZE
  {
    Version(m) > cfg.version && ManifestVerdict(cfg.trust, m) == Success
  }

  /** A slot that was erased and then took `delivered`. */
  function SlotImage(size: nat, delivered: seq<byte>): (c: seq<byte>)
    ensures |c| >= |delivered| && c[..|delivered|] == delivered
  {
    if |delivered| <= size then delivered + seq(size - |delivered|, _ => Flash.ERASED) else delivered
  }

  function TargetImage(cfg: Config, s: Ctx): (c: seq<byte>)
    ensures |c| >= |s.delivered| && c[..|s.delivered|] == s.delivered
  {
    SlotImage(if s.id < |cfg.sizes| then cfg.sizes[s.id] else 0, s.delivered)
  }

  /** Between calls: never in a state that a call passes through; a manifest is being received
      from the start, or a leftover count will reject it; firmware is being received behind an
      accepted manifest; and a machine that wants to reboot has verified its target slot. */
  ghost predicate Inv(cfg: Config, s: Ctx) {
    && |s.mt| == SIZE
    && s.state != VerifyManifest && s.state != VerifyFirmware
    && ((s.state == Idle || s.state == StartUpdate) ==> s.processed == 0 || s.processed > SIZE)
    && (s.state == ReceiveManifest ==> s.processed != SIZE)
    && (s.state == ReceiveFirmware ==>
          && SIZE <= s.processed == |s.delivered| && s.delivered[..SIZE] == s.mt
          && Version(s.mt) > cfg.version && s.expected == Expected(s.mt))
    && (s.state == Reboot ==>
          && |s.delivered| >= SIZE && Version(TargetImage(cfg, s)) > cfg.version
          && ObjectVerdict(cfg.trust, TargetImage(cfg, s), BUFFER_SIZE) == Success)
  }

  function IdleStep(cfg: Config, s: Ctx, buf: seq<byte>): Outcome {
    if |buf| != VERSION_LEN then Outcome(s.(state := Clean), InvalidVersion)
    else if FromLittleEndian(buf) <= cfg.version then Outcome(s, Ok)
    else Outcome(s.(state := StartUpdate), Ok)
  }

  function StartStep(s: Ctx, env: Env, buf: seq<byte>): Outcome {
    if |buf| < MSG_LEN then Outcome(s.(state := Clean), InvalidState)
    else if !env.rngOk then Outcome(s.(state := Clean), RngFailed)
    else Outcome(s.(state := ReceiveManifest), Ok)
  }

  /** A full manifest: refused, or stored at the head of the erased target with what follows it. */
  function ManifestStep(cfg: Config, env: Env, s: Ctx, rest: seq<byte>): Outcome
    requires |s.mt| == SIZE
  {
    if !Accepted(cfg, s.mt) then Outcome(s.(state := Clean), BadSignature)
    else
      var mt := Zeroed(s.mt);
      Outcome(s.(mt := mt, id := env.oldest, delivered := mt + rest, processed := s.processed + |rest|,
                 expected := Expected(mt), state := ReceiveFirmware), Ok)
  }

  function Min(a: nat, b: nat): nat {
    if a < b then a else b
  }

  function ReceiveManifestStep(cfg: Config, env: Env, s: Ctx, buf: seq<byte>): Outcome
    requires |s.mt| == SIZE
  {
    if s.processed > SIZE then Outcome(s.(state := Clean), InvalidState)
    else
      var n := Min(SIZE - s.processed, |buf|);
      var s' := s.(mt := s.mt[..s.processed] + buf[..n] + s.mt[s.processed + n..], processed := s.processed + n);
      if s'.processed < SIZE then Outcome(s', Ok) else ManifestStep(cfg, env, s', buf[n..])
  }

  /** The buffer is flushed and the slot verified; a failure keeps the count of processed bytes. */
  function VerifyStep(cfg: Config, env: Env, s: Ctx): Outcome
    requires |s.delivered| >= SIZE
  {
    var v := ObjectVerdict(cfg.trust, TargetImage(cfg, s), BUFFER_SIZE);
    if v != Success then Outcome(s.(mt := env.scratch, state := Idle), Verification(v))
    else Outcome(s.(mt := env.scratch, state := Reboot), Ok)
  }

  function FirmwareStep(cfg: Config, env: Env, s: Ctx, buf: seq<byte>): Outcome
    requires |s.delivered| >= SIZE
  {
    if s.processed + |buf| > s.expected then Outcome(s.(state := Clean), InvalidSize)
    else
      var s' := s.(delivered := s.delivered + buf, processed := s.processed + |buf|);
      if s'.processed != s'.expected then Outcome(s', Ok) else VerifyStep(cfg, env, s')
  }

  /** One call with a non-empty buffer. */
  function Step(cfg: Config, env: Env, s: Ctx, buf: seq<byte>): (r: Outcome)
    requires Inv(cfg, s) && |buf| > 0 && |env.scratch| == SIZE
    ensures Inv(cfg, r.s)
  {
    StepKeepsInv(cfg, env, s, buf);
    match s.state
    case Clean => IdleStep(cfg, s.(state := Idle, processed := 0, id := 0, mt := seq(SIZE, _ => 0), delivered := []), buf)
    case Idle => IdleStep(cfg, s, buf)
    case StartUpdate => StartStep(s, env, buf)
    case ReceiveManifest => ReceiveManifestStep(cfg, env, s, buf)
    case ReceiveFirmware => FirmwareStep(cfg, env, s, buf)
    case _ => Outcome(s, Ok)
  }

  /** Nothing but the two bytes of `diff_version` changes, and they are zero. */
  lemma ZeroedBytes(m: seq<byte>, z: seq<byte>)
    requires |m| == |z| == SIZE
    ensures z == Zeroed(m) <==>
            && z[..DIFF_VERSION_AT] == m[..DIFF_VERSION_AT] && z[DIFF_VERSION_AT..DIFF_VERSION_AT + 2] == [0, 0]
            && z[DIFF_VERSION_AT + 2..] == m[DIFF_VERSION_AT + 2..]
  {
    var at, y := DIFF_VERSION_AT, Zeroed(m);
    assert y[at..at + 2] == [0, 0];
    assert y == y[..at] + y[at..at + 2] + y[at + 2..] && z == z[..at] + z[at..at + 2] + z[at + 2..];
  }

  lemma ZeroedFields(m: seq<byte>)
    requires |m| == SIZE
    ensures Version(Zeroed(m)) == Version(m) && Expected(Zeroed(m)) == Expected(m)
  {
    hide FromLittleEndian;
    var z := Zeroed(m);
    assert z[VERSION_AT..VERSION_AT + 2] == m[VERSION_AT..VERSION_AT + 2];
    assert z[OFFSET_AT..OFFSET_AT + 4] == m[OFFSET_AT..OFFSET_AT + 4];
    assert z[PROP_SIZE_AT..PROP_SIZE_AT + 4] == m[PROP_SIZE_AT..PROP_SIZE_AT + 4];
  }

  lemma StepKeepsInv(cfg: Config, env: Env, s: Ctx, buf: seq<byte>)
    requires Inv(cfg, s) && |buf| > 0 && |env.scratch| == SIZE
    ensures s.state == ReceiveManifest ==> Inv(cfg, ReceiveManifestStep(cfg, env, s, buf).s)
    ensures s.state == ReceiveFirmware ==> Inv(cfg, FirmwareStep(cfg, env, s, buf).s)
  {
    hide Version, Expected, Accepted, ObjectVerdict, SlotImage;
    if s.state == ReceiveManifest && s.processed < SIZE {
      var n := Min(SIZE - s.processed, |buf|);
      ManifestKeepsInv(cfg, env, s.(mt := s.mt[..s.processed] + buf[..n] + s.mt[s.processed + n..], processed := s.processed + n), buf[n..]);
    }
    if s.state == ReceiveFirmware {
      var s' := s.(delivered := s.delivered + buf, processed := s.processed + |buf|);
      assert s'.delivered[..SIZE] == s.mt;
      var c := TargetImage(cfg, s');
      assert c[..SIZE] == c[..|s'.delivered|][..SIZE] == s.mt;
      SameManifest(c, s.mt);
    }
  }

  lemma ManifestKeepsInv(cfg: Config, env: Env, s: Ctx, rest: seq<byte>)
    requires |s.mt| == SIZE && s.state == ReceiveManifest
    ensures s.processed == SIZE ==> Inv(cfg, ManifestStep(cfg, env, s, rest).s)
  {
    hide Version, Expected, ManifestVerdict;
    ZeroedFields(s.mt);
    var z := Zeroed(s.mt);
    assert (z + rest)[..SIZE] == z;
  }
}
