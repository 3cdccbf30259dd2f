/** Whole runs of the update state machine. */
module FsmRuns {
  import opened Bytes
  import opened Manifest
  import opened Verifier
  import opened FsmSpec
  import PatchFormat

  datatype Input = Input(buf: seq<byte>, env: Env)

  predicate ValidInput(i: Input) {
    |i.buf| > 0 && |i.env.scratch| == SIZE
  }

  /** A machine and a record of the bytes it was given since it started an update. */
  datatype Traced = Traced(s: Ctx, log: seq<byte>)

  function Record(t: Traced, buf: seq<byte>): seq<byte> {
    match t.s.state
    case StartUpdate => []
    case ReceiveManifest => t.log + buf
    case ReceiveFirmware => t.log + buf
    case _ => t.log
  }

  /** The manifest bytes held are exactly those received since the update started, or the next
      chunk will be refused; once it is complete the target was given it and all that followed. */
  ghost predicate Faithful(t: Traced) {
    && (t.s.state == ReceiveManifest ==>
          t.s.processed > SIZE || (t.s.processed == |t.log| < SIZE <= |t.s.mt| && t.s.mt[..t.s.processed] == t.log))
    && (t.s.state == StartUpdate ==> t.s.processed == 0 || t.s.processed > SIZE)
    && (t.s.state == ReceiveFirmware ==> t.s.processed == |t.log|)
    && (t.s.state == ReceiveFirmware || t.s.state == Reboot ==>
          |t.log| >= SIZE && t.s.delivered == Zeroed(t.log[..SIZE]) + t.log[SIZE..])
  }

  function Advance(cfg: Config, t: Traced, i: Input): (t': Traced)
    requires Inv(cfg, t.s) && ValidInput(i)
    ensures Inv(cfg, t'.s)
  {
    Traced(Step(cfg, i.env, t.s, i.buf).s, Record(t, i.buf))
  }

  function RunAll(cfg: Config, t: Traced, inputs: seq<Input>): (t': Traced)
    requires Inv(cfg, t.s) && forall i :: i in inputs ==> ValidInput(i)
    ensures Inv(cfg, t'.s)
    decreases |inputs|
  {
    if inputs == [] then t
    else
      assert forall i :: i in inputs[1..] ==> i in inputs;
      RunAll(cfg, Advance(cfg, t, inputs[0]), inputs[1..])
  }

  /** The machine as `fsm_init` leaves it, whatever its buffer and id held. */
  predicate Initial(s: Ctx) {
    s.state == Idle && s.processed == 0 && |s.mt| == SIZE
  }

  lemma ManifestFilled(s: Ctx, log: seq<byte>, buf: seq<byte>)
    requires |s.mt| == SIZE && s.processed == |log| < SIZE && s.mt[..s.processed] == log && |buf| > 0
    ensures var n := Min(SIZE - s.processed, |buf|);
            var mt := s.mt[..s.processed] + buf[..n] + s.mt[s.processed + n..];
            && |mt| == SIZE && mt[..s.processed + n] == (log + buf)[..s.processed + n]
            && (s.processed + n == SIZE ==> (log + buf)[SIZE..] == buf[n..])
            && (s.processed + n < SIZE ==> n == |buf|)
  {}

  lemma StepFaithful(cfg: Config, t: Traced, i: Input)
    requires Inv(cfg, t.s) && ValidInput(i) && Faithful(t)
    ensures Faithful(Advance(cfg, t, i))
  {
    hide Accepted, Expected, Version, ObjectVerdict, TargetImage, IdleStep;
    var s := t.s;
    match s.state
    case ReceiveManifest =>
      if s.processed <= SIZE {
        ManifestFilled(s, t.log, i.buf);
      }
    case ReceiveFirmware =>
      var log := t.log + i.buf;
      assert log[..SIZE] == t.log[..SIZE] && log[SIZE..] == t.log[SIZE..] + i.buf;
      Assoc(Zeroed(t.log[..SIZE]), t.log[SIZE..], i.buf);
    case Idle => IdleCases(cfg, s, i.buf);
    case Clean => IdleCases(cfg, s.(state := Idle, processed := 0, id := 0, mt := seq(SIZE, _ => 0), delivered := []), i.buf);
    case _ =>
  }

  lemma IdleCases(cfg: Config, s: Ctx, buf: seq<byte>)
    ensures var r := IdleStep(cfg, s, buf).s; exists st :: st in {Clean, s.state, StartUpdate} && r == s.(state := st)
  {}

  /** Over every run from start-up: between calls the machine is in no transient state, and while
      a manifest is received the struct holds exactly the bytes received since the update began
      (or a leftover count is about to refuse the chunk). */
  lemma {:induction false} EveryRun(cfg: Config, t: Traced, inputs: seq<Input>)
    requires Inv(cfg, t.s) && Faithful(t)
    requires forall i :: i in inputs ==> ValidInput(i)
    ensures Inv(cfg, RunAll(cfg, t, inputs).s) && Faithful(RunAll(cfg, t, inputs))
    decreases |inputs|
  {
    hide Inv, Faithful, Advance;
    if inputs != [] {
      StepFaithful(cfg, t, inputs[0]);
      EveryRun(cfg, Advance(cfg, t, inputs[0]), inputs[1..]);
    }
  }

  lemma EveryRunFromStart(cfg: Config, s: Ctx, inputs: seq<Input>)
    requires Initial(s) && forall i :: i in inputs ==> ValidInput(i)
    ensures Inv(cfg, s)
    ensures var t := RunAll(cfg, Traced(s, []), inputs);
            && Faithful(t) && t.s.state != VerifyManifest && t.s.state != VerifyFirmware
            && (t.s.state == ReceiveManifest && t.s.processed > SIZE ==>
                  forall i :: ValidInput(i) ==> Advance(cfg, t, i).s.state == Clean)
  {
    hide RunAll;
    EveryRun(cfg, Traced(s, []), inputs);
  }

  /** A machine asks for a reboot only when its target slot passes verification and stores a
      version above the running one. */
  lemma RebootIsSafe(cfg: Config, s: Ctx, inputs: seq<Input>)
    requires Initial(s) && forall i :: i in inputs ==> ValidInput(i)
    ensures Inv(cfg, s)
    ensures var t := RunAll(cfg, Traced(s, []), inputs);
            t.s.state == Reboot ==>
              && |t.s.delivered| >= SIZE && Version(TargetImage(cfg, t.s)) > cfg.version
              && ObjectVerdict(cfg.trust, TargetImage(cfg, t.s), BUFFER_SIZE) == Success
  {
    hide RunAll, Version, ObjectVerdict, TargetImage;
    EveryRun(cfg, Traced(s, []), inputs);
  }

  /** Since the stored manifest, its `diff_version` zeroed, is verified again, a machine asks for a
      reboot only if that changed manifest is signed too. */
  lemma RebootNeedsZeroedSigned(cfg: Config, s: Ctx, inputs: seq<Input>)
    requires Initial(s) && forall i :: i in inputs ==> ValidInput(i)
    ensures Inv(cfg, s)
    ensures var t := RunAll(cfg, Traced(s, []), inputs);
            t.s.state == Reboot ==> |t.log| >= SIZE && cfg.trust.signed(Zeroed(t.log[..SIZE]))
  {
    hide RunAll;
    EveryRun(cfg, Traced(s, []), inputs);
    var t := RunAll(cfg, Traced(s, []), inputs);
    if t.s.state == Reboot {
      RebootedSigned(cfg, t);
    }
  }

  lemma RebootedSigned(cfg: Config, t: Traced)
    requires Inv(cfg, t.s) && Faithful(t) && t.s.state == Reboot
    ensures cfg.trust.signed(Zeroed(t.log[..SIZE]))
  {
    var z := Zeroed(t.log[..SIZE]);
    StoredManifest(cfg, t.s, z, t.log[SIZE..]);
    assert z[..SIZE] == z;
  }

  lemma StoredManifest(cfg: Config, s: Ctx, z: seq<byte>, rest: seq<byte>)
    requires |z| == SIZE && s.delivered == z + rest
    ensures TargetImage(cfg, s)[..SIZE] == z
  {
    hide SlotImage;
    var c := TargetImage(cfg, s);
    assert c[..SIZE] == c[..|s.delivered|][..SIZE] == s.delivered[..SIZE] == z;
  }

  /** And then nothing changes any more. */
  lemma {:induction false} RebootAbsorbs(cfg: Config, t: Traced, inputs: seq<Input>)
    requires Inv(cfg, t.s) && t.s.state == Reboot && forall i :: i in inputs ==> ValidInput(i)
    ensures RunAll(cfg, t, inputs) == t
    decreases |inputs|
  {
    hide Inv;
    if inputs != [] {
      RebootAbsorbs(cfg, t, inputs[1..]);
    }
  }

  // ---- When each step is taken ----

  /** Out of rest, two bytes that announce a newer version start an update, an older one is ignored,
      and anything else cleans up. After a clean-up nothing counts as processed. */
  lemma StartsIff(cfg: Config, env: Env, s: Ctx, buf: seq<byte>)
    requires Inv(cfg, s) && |buf| > 0 && |env.scratch| == SIZE && (s.state == Idle || s.state == Clean)
    ensures var r := Step(cfg, env, s, buf);
            && (r.s.state == StartUpdate <==> |buf| == 2 && buf[0] + 256 * buf[1] > cfg.version)
            && (r.s.state == Idle <==> |buf| == 2 && buf[0] + 256 * buf[1] <= cfg.version)
            && (r.s.state == Clean <==> |buf| != 2) && (r.err == InvalidVersion <==> |buf| != 2)
            && (s.state == Clean ==> r.s.processed == 0)
  {
    hide Inv;
    if |buf| == 2 {
      assert buf[1..][1..] == [];
      assert PatchFormat.FromLittleEndian(buf[1..]) == buf[1] + 256 * PatchFormat.FromLittleEndian([]);
    }
  }

  /** A request can then be sent, and a manifest is awaited, if there is room for the message and a nonce
      can be drawn; the count stays as it was. */
  lemma RequestsIff(cfg: Config, env: Env, s: Ctx, buf: seq<byte>)
    requires Inv(cfg, s) && |buf| > 0 && |env.scratch| == SIZE && s.state == StartUpdate
    ensures var r := Step(cfg, env, s, buf);
            && (r.s.state == ReceiveManifest <==> |buf| >= 16 && env.rngOk) && (r.s.state != ReceiveManifest ==> r.s.state == Clean)
            && r.s.processed == s.processed
  {
    hide Inv;
  }

  /** So from a clean-up, whatever led to it, two calls start an update with nothing processed. */
  lemma CleanStarts(cfg: Config, s: Ctx, first: Input, second: Input)
    requires Inv(cfg, s) && s.state == Clean && ValidInput(first) && ValidInput(second)
    requires |first.buf| == 2 && first.buf[0] + 256 * first.buf[1] > cfg.version && |second.buf| >= 16 && second.env.rngOk
    ensures var r := RunAll(cfg, Traced(s, []), [first, second]).s; r.state == ReceiveManifest && r.processed == 0
  {
    hide Inv, Step;
    var t := Advance(cfg, Traced(s, []), first);
    StartsIff(cfg, first.env, s, first.buf);
    RequestsIff(cfg, second.env, t.s, second.buf);
    assert [first, second][1..] == [second] && [second][1..] == [];
    assert RunAll(cfg, t, [second]) == Advance(cfg, t, second);
  }

  /** A manifest is taken if and only if it is complete, newer, for this application and signed, as it was
      received; a complete one that is not is refused. */
  lemma TakenIff(cfg: Config, t: Traced, i: Input)
    requires Inv(cfg, t.s) && ValidInput(i) && Faithful(t) && t.s.state == ReceiveManifest && t.s.processed <= SIZE
    ensures var r, all := Step(cfg, i.env, t.s, i.buf), t.log + i.buf;
            && (r.s.state == ReceiveFirmware <==>
                  && |all| >= SIZE && Version(all[..SIZE]) > cfg.version
                  && AppId(all[..SIZE]) == cfg.trust.appid && cfg.trust.signed(all[..SIZE]))
            && (r.s.state == ReceiveManifest <==> |all| < SIZE)
            && (r.s.state == Clean <==> r.err == BadSignature) && r.s.state in {Clean, ReceiveManifest, ReceiveFirmware}
  {
    hide Inv, Version, AppId, Expected;
    InvMeans(cfg, t.s);
    ManifestFilled(t.s, t.log, i.buf);
    var all, n := t.log + i.buf, Min(SIZE - t.s.processed, |i.buf|);
    var mt := t.s.mt[..t.s.processed] + i.buf[..n] + t.s.mt[t.s.processed + n..];
    assert |all| >= SIZE ==> mt == all[..SIZE] && mt[..SIZE] == mt;
  }

  /** Firmware is verified by the call that brings the count to the image offset plus the announced length,
      in 32 bits; more is refused, and less is waited for. */
  lemma VerifiedIff(cfg: Config, env: Env, s: Ctx, buf: seq<byte>)
    requires Inv(cfg, s) && |buf| > 0 && |env.scratch| == SIZE && s.state == ReceiveFirmware
    ensures |s.delivered| >= SIZE
    ensures var r, n := Step(cfg, env, s, buf).s, (ImageOffset(s.delivered[..SIZE]) + PropSize(s.delivered[..SIZE])) % TWO32;
            && (r.state == Clean <==> |s.delivered| + |buf| > n)
            && (r.state == ReceiveFirmware <==> |s.delivered| + |buf| < n)
            && (r.state in {Idle, Reboot} <==> |s.delivered| + |buf| == n)
  {
    hide Version, ImageOffset, PropSize, ObjectVerdict, TargetImage;
  }

  // ---- Delivery ----

  /** The machine after a prefix `p` of an accepted manifest and its payload. */
  ghost predicate Midway(cfg: Config, s: Ctx, m: seq<byte>, p: seq<byte>)
    requires |m| == SIZE
  {
    && Inv(cfg, s)
    && if |p| < SIZE then s.state == ReceiveManifest && s.processed == |p| && s.mt[..|p|] == p
       else s.state == ReceiveFirmware && s.processed == |p| && s.expected == Expected(m) && s.delivered == Zeroed(m) + p[SIZE..]
  }

  /** The machine after everything arrived and the slot was verified. */
  ghost predicate Verified(cfg: Config, s: Ctx, m: seq<byte>, all: seq<byte>)
    requires |m| == SIZE && |all| >= SIZE
  {
    && s.delivered == Zeroed(m) + all[SIZE..]
    && s.state == if ObjectVerdict(cfg.trust, TargetImage(cfg, s), BUFFER_SIZE) == Success then Reboot else Idle
  }

  lemma ChunkOfManifest(cfg: Config, s: Ctx, env: Env, m: seq<byte>, all: seq<byte>, p: seq<byte>, c: seq<byte>)
    requires |m| == SIZE && Accepted(cfg, m) && m <= all && p + c <= all
    requires |p| < SIZE && Midway(cfg, s, m, p) && |c| > 0 && |env.scratch| == SIZE
    ensures Midway(cfg, Step(cfg, env, s, c).s, m, p + c)
  {
    hide Accepted, Expected, Version, ObjectVerdict, TargetImage, Inv;
    InvMeans(cfg, s);
    ManifestFilled(s, p, c);
    var n := Min(SIZE - s.processed, |c|);
    if |p + c| >= SIZE {
      var mt := s.mt[..s.processed] + c[..n] + s.mt[s.processed + n..];
      assert mt == mt[..SIZE] == (p + c)[..SIZE] == all[..SIZE] == m;
      ZeroedFields(m);
    }
  }

  lemma InvMeans(cfg: Config, s: Ctx)
    requires Inv(cfg, s)
    ensures |s.mt| == SIZE
    ensures s.state == ReceiveFirmware ==> |s.delivered| >= SIZE
  {}

  lemma ChunkOfPayload(cfg: Config, s: Ctx, env: Env, m: seq<byte>, all: seq<byte>, p: seq<byte>, c: seq<byte>)
    requires |m| == SIZE && m <= all && Expected(m) == |all| && p + c <= all
    requires |p| >= SIZE && Midway(cfg, s, m, p) && |c| > 0 && |env.scratch| == SIZE
    ensures var s' := Step(cfg, env, s, c).s; if p + c == all then Verified(cfg, s', m, all) else Midway(cfg, s', m, p + c)
  {
    hide Expected, ObjectVerdict, TargetImage, Inv;
    InvMeans(cfg, s);
    assert (p + c)[SIZE..] == p[SIZE..] + c;
    Assoc(Zeroed(m), p[SIZE..], c);
    if |p + c| == |all| {
      assert p + c == all;
      var s' := s.(delivered := s.delivered + c, processed := s.processed + |c|);
      SameTarget(cfg, s', s'.(mt := env.scratch, state := Idle));
      SameTarget(cfg, s', s'.(mt := env.scratch, state := Reboot));
    }
  }

  lemma SameTarget(cfg: Config, a: Ctx, b: Ctx)
    requires a.id == b.id && a.delivered == b.delivered
    ensures TargetImage(cfg, a) == TargetImage(cfg, b)
  {}

  /** What the network makes of the file: non-empty chunks, each with what the outside contributes. */
  function Buffers(inputs: seq<Input>): (bs: seq<seq<byte>>)
    ensures |bs| == |inputs|
  {
    seq(|inputs|, k requires 0 <= k < |inputs| => inputs[k].buf)
  }

  lemma {:induction false} DeliverFrom(cfg: Config, t: Traced, m: seq<byte>, all: seq<byte>, p: seq<byte>, inputs: seq<Input>)
    requires forall i :: i in inputs ==> ValidInput(i)
    requires |m| == SIZE && Accepted(cfg, m) && m <= all && Expected(m) == |all| && inputs != []
    requires Midway(cfg, t.s, m, p) && p + Flatten(Buffers(inputs)) == all
    ensures var s := RunAll(cfg, t, inputs).s;
            if |all| - |inputs[|inputs| - 1].buf| >= SIZE then Verified(cfg, s, m, all) else Midway(cfg, s, m, all)
    decreases |inputs|
  {
    hide Midway, Verified, Accepted, Expected, Inv, Step;
    MidwayInv(cfg, t.s, m, p);
    var c, more := inputs[0].buf, inputs[1..];
    var t' := Advance(cfg, t, inputs[0]);
    assert Buffers(inputs)[1..] == Buffers(more);
    Assoc(p, c, Flatten(Buffers(more)));
    if |p| < SIZE {
      ChunkOfManifest(cfg, t.s, inputs[0].env, m, all, p, c);
    } else {
      ChunkOfPayload(cfg, t.s, inputs[0].env, m, all, p, c);
    }
    if more == [] {
      assert Flatten(Buffers(more)) == [] && p + c == all;
    } else {
      assert more[|more| - 1] == inputs[|inputs| - 1];
      SomethingLeft(more);
      DeliverFrom(cfg, t', m, all, p + c, more);
    }
  }

  lemma MidwayInv(cfg: Config, s: Ctx, m: seq<byte>, p: seq<byte>)
    requires |m| == SIZE && Midway(cfg, s, m, p)
    ensures Inv(cfg, s)
  {}

  lemma SomethingLeft(inputs: seq<Input>)
    requires inputs != [] && ValidInput(inputs[0])
    ensures |Flatten(Buffers(inputs))| > 0
  {}

  /** Delivery. A manifest that is accepted and a payload of the length it announces arrive in any
      non-empty chunks. The slot is verified if and only if the manifest was complete before the
      last chunk; either way the target was given the manifest, its `diff_version` zeroed,
      followed by the payload. If the slot was not verified it never will be: the machine waits,
      and refuses any further byte. */
  lemma Delivery(cfg: Config, s: Ctx, m: seq<byte>, payload: seq<byte>, inputs: seq<Input>)
    requires Inv(cfg, s) && s.state == ReceiveManifest && s.processed == 0
    requires inputs != [] && (forall i :: i in inputs ==> ValidInput(i)) && Flatten(Buffers(inputs)) == m + payload
    requires |m| == SIZE && Accepted(cfg, m) && (ImageOffset(m) + PropSize(m)) % TWO32 == |m + payload|
    ensures var r := RunAll(cfg, Traced(s, []), inputs).s;
            && r.delivered == Zeroed(m) + payload
            && (r.state in {Idle, Reboot} <==> |Flatten(Buffers(inputs[..|inputs| - 1]))| >= SIZE)
            && (r.state == Reboot ==> ObjectVerdict(cfg.trust, TargetImage(cfg, r), BUFFER_SIZE) == Success)
            && (r.state == Idle ==> ObjectVerdict(cfg.trust, TargetImage(cfg, r), BUFFER_SIZE) != Success)
            && (r.state !in {Idle, Reboot} ==>
                  r.state == ReceiveFirmware && forall i :: ValidInput(i) ==> Step(cfg, i.env, r, i.buf).s.state == Clean)
  {
    hide Accepted, ImageOffset, PropSize, RunAll, ObjectVerdict, Flatten, TargetImage, IdleStep;
    var all := m + payload;
    assert [] + Flatten(Buffers(inputs)) == all && all[SIZE..] == payload;
    DeliverFrom(cfg, Traced(s, []), m, all, [], inputs);
    var init, last := inputs[..|inputs| - 1], inputs[|inputs| - 1];
    AllButLast(inputs);
  }

  lemma {:induction false} AllButLast(inputs: seq<Input>)
    requires inputs != []
    ensures |Flatten(Buffers(inputs[..|inputs| - 1]))| == |Flatten(Buffers(inputs))| - |inputs[|inputs| - 1].buf|
    decreases |inputs|
  {
    var init := inputs[..|inputs| - 1];
    assert Buffers(inputs)[1..] == Buffers(inputs[1..]);
    if |inputs| > 1 {
      assert Buffers(init)[1..] == Buffers(init[1..]) && init[1..] == inputs[1..][..|inputs| - 2];
      AllButLast(inputs[1..]);
    } else {
      assert Buffers(init) == [];
    }
  }

  /** What verification of a delivered image comes to. An accepted manifest with a non-zero
      `diff_version` is not stored as it was signed, so even a complete, intact image is refused
      unless the changed manifest happens to be signed as well. */
  lemma RebootsExactlyWhen(cfg: Config, s: Ctx, m: seq<byte>, payload: seq<byte>, inputs: seq<Input>)
    requires Inv(cfg, s) && s.state == ReceiveManifest && s.processed == 0
    requires inputs != [] && (forall i :: i in inputs ==> ValidInput(i)) && Flatten(Buffers(inputs)) == m + payload
    requires |m| == SIZE && Accepted(cfg, m) && (ImageOffset(m) + PropSize(m)) % TWO32 == |m + payload|
    ensures var r := RunAll(cfg, Traced(s, []), inputs).s;
            r.state == Reboot <==>
              && |Flatten(Buffers(inputs[..|inputs| - 1]))| >= SIZE
              && cfg.trust.signed(Zeroed(m))
              && DigestVerdict(cfg.trust, TargetImage(cfg, r), Zeroed(m), BUFFER_SIZE) == Success
  {
    hide ImageOffset, PropSize, RunAll, Flatten, TargetImage, Version, Inv, DigestVerdict;
    Delivery(cfg, s, m, payload, inputs);
    var r := RunAll(cfg, Traced(s, []), inputs).s;
    StoredManifest(cfg, r, Zeroed(m), payload);
    ZeroedAppId(m);
    assert Zeroed(m)[..SIZE] == Zeroed(m) && m[..SIZE] == m;
  }

  lemma ZeroedAppId(m: seq<byte>)
    requires |m| == SIZE
    ensures AppId(Zeroed(m)) == AppId(m)
  {
    hide PatchFormat.FromLittleEndian;
    assert Zeroed(m)[APPID_AT..APPID_AT + 2] == m[APPID_AT..APPID_AT + 2];
  }
}
