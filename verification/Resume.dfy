/** Resuming a transfer: the update agent's requests and the server's firmware resource. */
module Resume {
  import opened Bytes
  import opened Manifest
  import opened PatchFormat
  import opened FsmSpec
  import opened FsmRuns
  import opened Verifier

  /** Where the fields the server fills in lie, after `vendor_manifest_t` and its signature. */
  const SIGNATURE_AT: nat := 172
  const SERVER_AT: nat := 236
  const NONCE_AT: nat := 240

  /** Who asks, in which session, and from which offset. */
  datatype Msg = Msg(udid: seq<byte>, nonce: seq<byte>, version: seq<byte>, offset: nat)

  predicate ValidMsg(m: Msg) {
    |m.udid| == 2 && |m.nonce| == 4 && |m.version| == 2
  }

  predicate SameSession(a: Msg, b: Msg) {
    a.udid == b.udid && a.nonce == b.nonce
  }

  function Put(file: seq<byte>, at: nat, s: seq<byte>): (r: seq<byte>)
    requires at + |s| <= |file|
    ensures |r| == |file|
    ensures forall k :: 0 <= k < |r| ==> r[k] == if at <= k < at + |s| then s[k - at] else file[k]
  {
    file[..at] + s + file[at + |s|..]
  }

  /** A signature of the server's part of the manifest. */
  type signature = s: seq<byte> | |s| == 64 witness seq(64, _ => 0)

  predicate Serves(file: seq<byte>, m: Msg)
    requires |file| >= SIZE && ValidMsg(m)
  {
    file[SERVER_AT..SERVER_AT + 2] == m.udid && file[NONCE_AT..NONCE_AT + 4] == m.nonce
  }

  /** The file as it is served to a session: the first request fills in the server's fields and
      signs them. */
  function Personalised(file: seq<byte>, m: Msg, sign: seq<byte> -> signature): (r: seq<byte>)
    requires |file| >= SIZE && ValidMsg(m)
    ensures |r| == |file|
  {
    if Serves(file, m) then file
    else
      PowersOf256();
      var f := Put(Put(Put(file, SERVER_AT, m.udid), NONCE_AT, m.nonce), DIFF_VERSION_AT, m.version);
      var g := Put(f, PROP_SIZE_AT, LittleEndian((|file| - SIZE) % TWO32, 4));
      Put(g, SIGNATURE_AT, sign(g[SERVER_AT..SIZE]))
  }

  /** Within one session the served file does not change: only the first request writes it. */
  lemma SessionKeepsFile(file: seq<byte>, m: Msg, m': Msg, sign: seq<byte> -> signature)
    requires |file| >= SIZE && ValidMsg(m) && ValidMsg(m') && SameSession(m, m')
    ensures Personalised(Personalised(file, m, sign), m', sign) == Personalised(file, m, sign)
    ensures Serves(Personalised(file, m, sign), m)
  {
    hide LittleEndian;
    var r := Personalised(file, m, sign);
    assert Serves(r, m);
  }

  /** A new session's manifest announces the length of what follows it. */
  lemma FreshSessionSize(file: seq<byte>, m: Msg, sign: seq<byte> -> signature)
    requires SIZE <= |file| < SIZE + TWO32 && ValidMsg(m) && !Serves(file, m)
    ensures PropSize(Personalised(file, m, sign)) == |file| - SIZE
  {
    hide LittleEndian, FromLittleEndian, Put;
    PowersOf256();
    LittleEndianRoundTrip(|file| - SIZE, 4);
    var f := Put(Put(Put(file, SERVER_AT, m.udid), NONCE_AT, m.nonce), DIFF_VERSION_AT, m.version);
    var word := LittleEndian(|file| - SIZE, 4);
    var g := Put(f, PROP_SIZE_AT, word);
    PutKeeps(g, SIGNATURE_AT, sign(g[SERVER_AT..SIZE]), PROP_SIZE_AT, PROP_SIZE_AT + 4);
    PutReads(f, PROP_SIZE_AT, word);
  }

  lemma PutReads(file: seq<byte>, at: nat, s: seq<byte>)
    requires at + |s| <= |file|
    ensures Put(file, at, s)[at..at + |s|] == s
  {}

  lemma PutKeeps(file: seq<byte>, at: nat, s: seq<byte>, lo: nat, hi: nat)
    requires at + |s| <= |file| && lo <= hi <= |file| && (hi <= at || at + |s| <= lo)
    ensures Put(file, at, s)[lo..hi] == file[lo..hi]
  {}

  /** So if its image starts behind the manifest, the file is verified exactly at its last byte, however it
      is cut into chunks, provided that the manifest was complete before the last one. */
  lemma FreshSessionVerified(cfg: Config, s: Ctx, file: seq<byte>, m: Msg, sign: seq<byte> -> signature, inputs: seq<Input>)
    requires SIZE <= |file| < TWO32 && ValidMsg(m) && !Serves(file, m) && ImageOffset(file) == SIZE
    requires Inv(cfg, s) && s.state == ReceiveManifest && s.processed == 0
    requires inputs != [] && (forall i :: i in inputs ==> ValidInput(i))
    requires Flatten(Buffers(inputs)) == Personalised(file, m, sign) && Accepted(cfg, Personalised(file, m, sign)[..SIZE])
    ensures var r, served := RunAll(cfg, Traced(s, []), inputs).s, Personalised(file, m, sign);
            && r.delivered == Zeroed(served[..SIZE]) + served[SIZE..]
            && r.state == if |Flatten(Buffers(inputs[..|inputs| - 1]))| < SIZE then ReceiveFirmware
                          else if ObjectVerdict(cfg.trust, TargetImage(cfg, r), FsmSpec.BUFFER_SIZE) == Success then Reboot
                          else Idle
  {
    hide RunAll, Accepted, Flatten, Personalised, ObjectVerdict, TargetImage, Inv, ImageOffset, PropSize;
    var served := Personalised(file, m, sign);
    var h := served[..SIZE];
    FreshSessionSize(file, m, sign);
    SignedAsServed(file, m, sign);
    SameManifest(h, served);
    OffsetKept(file, served);
    assert h + served[SIZE..] == served;
    Delivery(cfg, s, h, served[SIZE..], inputs);
  }

  lemma OffsetKept(file: seq<byte>, served: seq<byte>)
    requires SIZE <= |file| == |served| && served[..SIGNATURE_AT] == file[..SIGNATURE_AT]
    ensures ImageOffset(served) == ImageOffset(file)
  {
    SameSlice(served, file, SIGNATURE_AT, OFFSET_AT, OFFSET_AT + 4);
  }

  datatype Reply = NotFound | BadBlock | Content(bytes: seq<byte>)

  /** A block's length, from the size exponent of the request. */
  function BlockSize(szx: nat): (n: nat)
    ensures n == 16 * Pow2(szx) && n > 0
  {
    assert Pow2(szx + 4) == 2 * Pow2(szx + 3) && Pow2(szx + 2) == 2 * Pow2(szx + 1);
    Pow2(szx + 4)
  }

  /** The length of `n` blocks. */
  function BlocksLength(n: nat, szx: nat): nat {
    n * BlockSize(szx)
  }

  class Server {
    var file: seq<byte>
    const sign: seq<byte> -> signature

    constructor (file: seq<byte>, sign: seq<byte> -> signature)
      ensures this.file == file && this.sign == sign
    {
      this.file, this.sign := file, sign;
    }

    /** One request for one block. The file then carries the session's device and nonce, and was changed only
        if it did not before. An offset beyond the file is not found, a block beyond it is bad, and any
        other block is what lies there, full unless the file ends. */
    method Handle(m: Msg, num: nat, szx: nat) returns (reply: Reply)
      requires |file| >= SIZE && ValidMsg(m)
      modifies this
      ensures file == Personalised(old(file), m, sign)
      ensures file[SERVER_AT..SERVER_AT + 2] == m.udid && file[NONCE_AT..NONCE_AT + 4] == m.nonce
      ensures reply == NotFound <==> m.offset >= |file|
      ensures reply == BadBlock <==> m.offset < |file| <= m.offset + BlocksLength(num, szx)
      ensures reply.Content? ==>
                var from := m.offset + BlocksLength(num, szx);
                reply.bytes == file[from..from + Min(BlockSize(szx), |file| - from)]
    {
      hide Put, LittleEndian, BlockSize;
      ghost var n, file0 := |file|, file;
      if file[SERVER_AT..SERVER_AT + 2] != m.udid || file[NONCE_AT..NONCE_AT + 4] != m.nonce {
        PowersOf256();
        file := Put(file, SERVER_AT, m.udid);
        file := Put(file, NONCE_AT, m.nonce);
        file := Put(file, DIFF_VERSION_AT, m.version);
        file := Put(file, PROP_SIZE_AT, LittleEndian((|file| - SIZE) % TWO32, 4));
        var signed := sign(file[SERVER_AT..SIZE]);
        assert |signed| == 64 && |file| == n;
        file := Put(file, SIGNATURE_AT, signed);
      }
      SessionKeepsFile(file0, m, m, sign);
      if m.offset >= |file| {
        return NotFound;
      }
      var remaining, start := |file| - m.offset, num * BlockSize(szx);
      if start >= remaining {
        return BadBlock;
      }
      var from := m.offset + start;
      reply := Content(file[from..from + Min(BlockSize(szx), remaining - start)]);
    }
  }

  /** How far one request gets: the blocks that arrive, in order, before the network gives up, the
      size exponent agreed, and what the device contributes to each call. */
  datatype Transfer = Transfer(blocks: nat, szx: nat, env: nat -> Env)

  ghost predicate ValidTransfer(tr: Transfer) {
    forall k :: |tr.env(k).scratch| == SIZE
  }

  /** What the device has accepted is a prefix of the served file, and it knows how long a one. */
  ghost predicate InStep(t: Traced, file: seq<byte>) {
    && Faithful(t) && t.log <= file
    && (t.s.state == ReceiveManifest ==> t.s.processed == |t.log| < SIZE)
    && (t.s.state == ReceiveFirmware ==> t.s.processed == |t.log|)
    && (t.s.state == Reboot ==> |t.log| == Expected(t.log[..SIZE]))
  }

  /** A receiving machine, or one that is done. */
  predicate Going(t: Traced) {
    t.s.state == ReceiveManifest || t.s.state == ReceiveFirmware || t.s.state == Reboot
  }

  /** A block that starts where the device stands keeps it in step. */
  lemma NextBlock(cfg: Config, t: Traced, file: seq<byte>, bytes: seq<byte>, env: Env)
    requires Inv(cfg, t.s) && Going(t) && InStep(t, file) && ValidInput(Input(bytes, env))
    requires t.s.state != Reboot ==> |t.log| + |bytes| <= |file| && bytes == file[|t.log|..|t.log| + |bytes|]
    ensures var t' := Advance(cfg, t, Input(bytes, env));
            && InStep(t', file) && t.log <= t'.log && (t.s.state == Reboot ==> t' == t)
            && (Step(cfg, env, t.s, bytes).err == Ok ==> Going(t') && (t'.s.state != Reboot ==> |t'.log| == |t.log| + |bytes|))
  {
    hide Accepted, Expected, Version, ObjectVerdict, TargetImage, Inv;
    var i := Input(bytes, env);
    InvMeans(cfg, t.s);
    StepFaithful(cfg, t, i);
    if t.s.state != Reboot {
      assert t.log + bytes == file[..|t.log| + |bytes|];
    }
    if t.s.state == ReceiveFirmware {
      ExpectedOfLog(cfg, t);
      assert (t.log + bytes)[..SIZE] == t.log[..SIZE];
    }
  }

  lemma ExpectedOfLog(cfg: Config, t: Traced)
    requires Inv(cfg, t.s) && Faithful(t) && t.s.state == ReceiveFirmware
    ensures |t.log| >= SIZE && t.s.expected == Expected(t.log[..SIZE])
  {
    hide Expected, Version, Zeroed;
    var z := Zeroed(t.log[..SIZE]);
    ZeroedFields(t.log[..SIZE]);
    assert (z + t.log[SIZE..])[..SIZE] == z;
  }

  lemma StandsAt(t: Traced, file: seq<byte>)
    requires InStep(t, file) && (t.s.state == ReceiveManifest || t.s.state == ReceiveFirmware)
    ensures |t.log| == t.s.processed
  {}

  lemma BlocksGrow(num: nat, blocks: nat, szx: nat)
    requires num < blocks
    ensures BlocksLength(num + 1, szx) == BlocksLength(num, szx) + BlockSize(szx) <= BlocksLength(blocks, szx)
  {
    hide BlockSize;
    MultiplesGrow(num, blocks, BlockSize(szx));
  }

  lemma {:induction false} MultiplesGrow(num: nat, blocks: nat, size: nat)
    requires num < blocks
    ensures (num + 1) * size == num * size + size <= blocks * size
    decreases blocks
  {
    Distribute(num, size);
    if num + 1 < blocks {
      MultiplesGrow(num, blocks - 1, size);
      Distribute(blocks - 1, size);
    }
  }

  lemma Distribute(num: nat, size: nat)
    ensures (num + 1) * size == num * size + size
  {}

  lemma NoBlocks(szx: nat)
    ensures BlocksLength(0, szx) == 0
  {}

  /** One request: the offset is what the device has processed; blocks arrive in order until the
      network gives up, the server has no more, or the machine reports an error. Without an error the
      device then has all the blocks brought, up to the end of the file, or wants to reboot. */
  method Request(server: Server, cfg: Config, t0: Traced, m: Msg, tr: Transfer) returns (t: Traced, err: Error)
    requires |server.file| >= SIZE && ValidMsg(m) && ValidTransfer(tr)
    requires Inv(cfg, t0.s) && (t0.s.state == ReceiveManifest || t0.s.state == ReceiveFirmware) && m.offset == t0.s.processed
    requires InStep(t0, Personalised(server.file, m, server.sign))
    modifies server
    ensures server.file == old(server.file) || server.file == Personalised(old(server.file), m, server.sign)
    ensures Inv(cfg, t.s) && InStep(t, Personalised(old(server.file), m, server.sign)) && t0.log <= t.log
    ensures err == Ok ==> Going(t)
    ensures err == Ok && t.s.state != Reboot ==> |t.log| == Min(old(|server.file|), m.offset + BlocksLength(tr.blocks, tr.szx))
  {
    hide InStep, Inv, Personalised, BlockSize, BlocksLength, Advance, Step, Serves;
    NoBlocks(tr.szx);
    ghost var file := Personalised(server.file, m, server.sign);
    t, err := t0, Ok;
    SessionKeepsFile(server.file, m, m, server.sign);
    StandsAt(t, file);
    LogWithin(t, file);
    var num, size := 0, BlockSize(tr.szx);
    while num < tr.blocks
      invariant num <= tr.blocks && (num == 0 || server.file == file) && (num == 0 ==> server.file == old(server.file))
      invariant Inv(cfg, t.s) && InStep(t, file) && Going(t) && err == Ok && t0.log <= t.log <= file
      invariant t.s.state != Reboot ==> |t.log| == m.offset + BlocksLength(num, tr.szx)
    {
      BlocksGrow(num, tr.blocks, tr.szx);
      var reply := server.Handle(m, num, tr.szx);
      if !reply.Content? {
        break;
      }
      var env := tr.env(num);
      NextBlock(cfg, t, file, reply.bytes, env);
      err := Step(cfg, env, t.s, reply.bytes).err;
      t := Advance(cfg, t, Input(reply.bytes, env));
      LogWithin(t, file);
      if err != Ok {
        return;
      }
      if |reply.bytes| < size {
        break;
      }
      num := num + 1;
    }
  }

  /** The blocks of a transfer come to `n` bytes at least. */
  predicate Brings(tr: Transfer, n: nat) {
    BlocksLength(tr.blocks, tr.szx) >= n
  }

  lemma LogWithin(t: Traced, file: seq<byte>)
    requires InStep(t, file)
    ensures t.log <= file
  {}

  /** The agent's request loop, over any number of interruptions: every request asks for what is
      missing and brings any in-order prefix of its blocks. The file is personalised once, by the
      first request. What the device has accepted is always a prefix of it; and if the device ends
      up wanting to reboot, its slot was given that prefix, as long as its manifest announced, with
      `diff_version` zeroed. If the first request brings the manifest, some request is not cut off
      before the end of the file, and no error is met, then the device has the whole file or wants
      to reboot. */
  method Session(server: Server, cfg: Config, t0: Traced, m0: Msg, plan: seq<Transfer>) returns (t: Traced, err: Error)
    requires |server.file| >= SIZE && ValidMsg(m0) && forall tr :: tr in plan ==> ValidTransfer(tr)
    requires Inv(cfg, t0.s) && t0.s.state == ReceiveManifest && t0.s.processed == 0 && t0.log == []
    modifies server
    ensures server.file == old(server.file) || server.file == Personalised(old(server.file), m0, server.sign)
    ensures var file := Personalised(old(server.file), m0, server.sign);
            && Inv(cfg, t.s) && t.log <= file
            && (t.s.state == ReceiveManifest || t.s.state == ReceiveFirmware ==> t.s.processed == |t.log|)
            && (t.s.state == Reboot ==>
                  && |t.log| == (ImageOffset(file[..SIZE]) + PropSize(file[..SIZE])) % TWO32 >= SIZE
                  && t.s.delivered == Zeroed(file[..SIZE]) + file[SIZE..|t.log|])
            && (err == Ok && plan != [] && Brings(plan[0], SIZE) && (exists tr :: tr in plan && Brings(tr, |file|)) ==>
                  t.log == file || t.s.state == Reboot)
  {
    hide Inv, Personalised, BlocksLength, ImageOffset, PropSize;
    ghost var file := Personalised(server.file, m0, server.sign);
    t, err := t0, Ok;
    InvMeans(cfg, t.s);
    var k := 0;
    while k < |plan|
      invariant server.file == old(server.file) || server.file == file
      invariant |server.file| >= SIZE && Inv(cfg, t.s) && InStep(t, file)
      invariant Personalised(server.file, m0, server.sign) == file
      invariant t.s.state == ReceiveFirmware || (t.s.state == ReceiveManifest && k == 0)
      invariant err == Ok && k <= |plan| && forall j :: 0 <= j < k && Brings(plan[j], |file|) ==> t.log == file
      decreases |plan| - k
    {
      var m := m0.(offset := t.s.processed);
      SameFile(server.file, m0, m, server.sign);
      SessionKeepsFile(server.file, m0, m0, server.sign);
      t, err := Request(server, cfg, t, m, plan[k]);
      k := k + 1;
      if err != Ok || t.s.state != ReceiveFirmware {
        break;
      }
    }
    Prefixes(t, file);
  }

  /** The offset of a message does not enter the file. */
  lemma SameFile(file: seq<byte>, m: Msg, m': Msg, sign: seq<byte> -> signature)
    requires |file| >= SIZE && ValidMsg(m) && ValidMsg(m') && m' == m.(offset := m'.offset)
    ensures Personalised(file, m', sign) == Personalised(file, m, sign)
  {}

  lemma Prefixes(t: Traced, file: seq<byte>)
    requires InStep(t, file)
    ensures t.log <= file
    ensures t.s.state == ReceiveManifest || t.s.state == ReceiveFirmware ==> t.s.processed == |t.log|
    ensures t.s.state == Reboot ==> |t.log| == Expected(file[..SIZE]) >= SIZE && t.s.delivered == Zeroed(file[..SIZE]) + file[SIZE..|t.log|]
  {
    if t.s.state == Reboot {
      assert t.log[..SIZE] == file[..SIZE] && t.log[SIZE..] == file[SIZE..|t.log|];
    }
  }

  /** Signatures of different server parts differ, and a manifest is accepted only with the
      server's signature over what it says. */
  ghost predicate Ideal(cfg: Config, sign: seq<byte> -> signature) {
    && (forall a, b :: |a| == |b| == SIZE - SERVER_AT && sign(a) == sign(b) ==> a == b)
    && (forall x :: |x| == SIZE && cfg.trust.signed(x) ==> x[SIGNATURE_AT..SERVER_AT] == sign(x[SERVER_AT..SIZE]))
  }

  /** The server signs the version the device runs into `diff_version`; the device zeroes the field
      before it stores the manifest. So with ideal signatures, and unless that version is zero, the
      manifest a fresh session served is not signed as it is stored. */
  lemma StoredUnsigned(cfg: Config, file: seq<byte>, m: Msg, sign: seq<byte> -> signature)
    requires Ideal(cfg, sign) && |file| >= SIZE && ValidMsg(m) && !Serves(file, m)
    requires 0 < cfg.version < 65536 && m.version == LittleEndian(cfg.version, 2)
    ensures !cfg.trust.signed(Zeroed(Personalised(file, m, sign)[..SIZE]))
  {
    hide LittleEndian, Personalised, Zeroed;
    var served := Personalised(file, m, sign);
    var h := served[..SIZE];
    var z := Zeroed(h);
    if cfg.trust.signed(z) {
      SignedAsServed(file, m, sign);
      ZeroedParts(h);
      SameSlice(h, served, SIZE, SIGNATURE_AT, SERVER_AT);
      SameSlice(h, served, SIZE, SERVER_AT, SIZE);
      SameSlice(h, served, SIZE, DIFF_VERSION_AT, DIFF_VERSION_AT + 2);
      assert sign(z[SERVER_AT..SIZE]) == sign(h[SERVER_AT..SIZE]);
      ZeroVersion(cfg.version);
    }
  }

  /** The stored manifest is verified again. So with ideal signatures, a device that sends its running
      version and takes its image from a fresh session asks for a reboot only if that version is
      zero. */
  lemma OnlyVersionZeroReboots(cfg: Config, file: seq<byte>, m: Msg, sign: seq<byte> -> signature, t: Traced)
    requires Ideal(cfg, sign) && |file| >= SIZE && ValidMsg(m) && !Serves(file, m)
    requires cfg.version < 65536 && m.version == LittleEndian(cfg.version, 2)
    requires Inv(cfg, t.s) && InStep(t, Personalised(file, m, sign)) && t.s.state == Reboot
    ensures cfg.version == 0
  {
    hide Inv, LittleEndian, Personalised, Zeroed, Ideal;
    assert t.log[..SIZE] == Personalised(file, m, sign)[..SIZE];
    RebootedSigned(cfg, t);
    if cfg.version > 0 {
      StoredUnsigned(cfg, file, m, sign);
    }
  }

  lemma ZeroVersion(v: nat)
    requires v < 65536 && LittleEndian(v, 2) == [0, 0]
    ensures v == 0
  {
    assert Pow256(2) == 65536;
    LittleEndianRoundTrip(v, 2);
    assert [0 as byte, 0][1..] == [0];
    assert FromLittleEndian([0]) == 0 + 256 * FromLittleEndian([]);
  }

  /** Zeroing keeps the signature, and changes the server's part unless the field was zero. */
  lemma ZeroedParts(h: seq<byte>)
    requires |h| == SIZE
    ensures Zeroed(h)[SIGNATURE_AT..SERVER_AT] == h[SIGNATURE_AT..SERVER_AT]
    ensures Zeroed(h)[SERVER_AT..SIZE] == h[SERVER_AT..SIZE] ==> h[DIFF_VERSION_AT..DIFF_VERSION_AT + 2] == [0, 0]
  {
    var z, at := Zeroed(h), DIFF_VERSION_AT - SERVER_AT;
    assert z[SERVER_AT..SIZE][at] == 0 && z[SERVER_AT..SIZE][at + 1] == 0;
    assert h[SERVER_AT..SIZE][at] == h[DIFF_VERSION_AT] && h[SERVER_AT..SIZE][at + 1] == h[DIFF_VERSION_AT + 1];
  }

  /** What a fresh session is served: the device's version, a signature over the server's fields, and
      the rest of the file as it was. */
  lemma SignedAsServed(file: seq<byte>, m: Msg, sign: seq<byte> -> signature)
    requires |file| >= SIZE && ValidMsg(m) && !Serves(file, m)
    ensures var r := Personalised(file, m, sign);
            && r[DIFF_VERSION_AT..DIFF_VERSION_AT + 2] == m.version
            && r[SIGNATURE_AT..SERVER_AT] == sign(r[SERVER_AT..SIZE])
            && r[..SIGNATURE_AT] == file[..SIGNATURE_AT] && r[PROP_SIZE_AT + 4..] == file[PROP_SIZE_AT + 4..]
            && r[SIZE..] == file[SIZE..]
  {
    hide LittleEndian;
    PowersOf256();
    var f := Put(Put(Put(file, SERVER_AT, m.udid), NONCE_AT, m.nonce), DIFF_VERSION_AT, m.version);
    var g := Put(f, PROP_SIZE_AT, LittleEndian((|file| - SIZE) % TWO32, 4));
    assert g[SERVER_AT..SIZE] == Personalised(file, m, sign)[SERVER_AT..SIZE];
  }
}
