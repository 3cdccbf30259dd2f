/** The slot table and the choice of a slot by version. */
module Slots {
  import opened Bytes
  import opened Flash
  import opened Manifest
  import opened NorCopy

  /** One row of the slot table. A slot's id stands for its position in the table. */
  datatype Slot = Slot(start: nat, end: nat, bootable: bool)

  function Object(s: Slot, mode: Mode): MemObject {
    MemObject(s.start, s.end, mode)
  }

  /** Every slot lies within a flash of `n` bytes and has room for a manifest. */
  predicate Within(n: nat, slots: seq<Slot>) {
    forall k :: 0 <= k < |slots| ==> slots[k].start + SIZE <= slots[k].end <= n
  }

  /** Two rows of the table share no byte. */
  predicate Separate(a: Slot, b: Slot) {
    Apart(Object(a, ReadOnly), Object(b, ReadOnly))
  }

  predicate Disjoint(slots: seq<Slot>) {
    forall j, k :: 0 <= j < k < |slots| ==> Separate(slots[j], slots[k])
  }

  /** Every slot is placed on the device. */
  ghost predicate Laid(d: Device, slots: seq<Slot>)
    reads d
  {
    && Within(|d.cells|, slots)
    && forall k :: 0 <= k < |slots| ==> Placed(d, Object(slots[k], ReadOnly))
  }

  /** What a slot holds. */
  function Image(cells: seq<byte>, s: Slot): (c: seq<byte>)
    requires s.start <= s.end <= |cells|
    ensures |c| == s.end - s.start
  {
    cells[s.start..s.end]
  }

  /** The version each slot's manifest carries. */
  function Versions(cells: seq<byte>, slots: seq<Slot>): (vs: seq<nat>)
    requires Within(|cells|, slots)
    ensures |vs| == |slots|
    ensures forall k :: 0 <= k < |slots| ==> vs[k] == Version(Image(cells, slots[k]))
  {
    seq(|slots|, k requires 0 <= k < |slots| => Version(Image(cells, slots[k])))
  }

  predicate Better(newest: bool, a: nat, b: nat) {
    if newest then a > b else a < b
  }

  /** A row replaces the slot kept if its version is better, unless a bootable slot is kept,
      preferred, and the row is not bootable. */
  function Kept(vs: seq<nat>, bs: seq<bool>, newest: bool, prefer: bool, kept: nat, row: nat): nat
    requires kept < |vs| == |bs| && row < |vs|
  {
    if !(prefer && bs[kept] && !bs[row]) && Better(newest, vs[row], vs[kept]) then row else kept
  }

  /** The slot kept after the first `n` rows. */
  function Pick(vs: seq<nat>, bs: seq<bool>, newest: bool, prefer: bool, n: nat): (k: nat)
    requires 0 < n <= |vs| == |bs|
    ensures k < n
  {
    if n == 1 then 0
    else
      Kept(vs, bs, newest, prefer, Pick(vs, bs, newest, prefer, n - 1), n - 1)
  }

  lemma PickStep(vs: seq<nat>, bs: seq<bool>, newest: bool, prefer: bool, n: nat)
    requires n < |vs| == |bs|
    ensures n == 0 ==> Pick(vs, bs, newest, prefer, 1) == 0
    ensures n > 0 ==> Pick(vs, bs, newest, prefer, n + 1) == Kept(vs, bs, newest, prefer, Pick(vs, bs, newest, prefer, n), n)
  {}

  /** `k` is the first of the slots `among` with the best version. */
  ghost predicate LeftmostBest(vs: seq<nat>, among: seq<bool>, newest: bool, k: nat) {
    && |vs| == |among| && k < |vs| && among[k]
    && (forall j :: 0 <= j < |vs| && among[j] ==> !Better(newest, vs[j], vs[k]))
    && (forall j :: 0 <= j < k && among[j] ==> Better(newest, vs[k], vs[j]))
  }

  /** Without a preference, the leftmost slot of extreme version. */
  lemma {:induction false} PickIsLeftmost(vs: seq<nat>, bs: seq<bool>, newest: bool, n: nat)
    requires 0 < n <= |vs| == |bs|
    ensures LeftmostBest(vs[..n], seq(n, _ => true), newest, Pick(vs, bs, newest, false, n))
  {
    if n > 1 {
      PickIsLeftmost(vs, bs, newest, n - 1);
      assert forall j :: 0 <= j < n - 1 ==> vs[..n][j] == vs[..n - 1][j];
    }
  }

  /** With bootable slots preferred and the first slot bootable, the leftmost extreme one of them. */
  lemma {:induction false} PickIsLeftmostBootable(vs: seq<nat>, bs: seq<bool>, newest: bool, n: nat)
    requires 0 < n <= |vs| == |bs| && bs[0]
    ensures LeftmostBest(vs[..n], bs[..n], newest, Pick(vs, bs, newest, true, n))
  {
    if n > 1 {
      PickIsLeftmostBootable(vs, bs, newest, n - 1);
      assert forall j :: 0 <= j < n - 1 ==> vs[..n][j] == vs[..n - 1][j] && bs[..n][j] == bs[..n - 1][j];
    }
  }

  /** A bootable slot better than all before it. */
  ghost predicate Overtakes(vs: seq<nat>, bs: seq<bool>, newest: bool, b: nat)
    requires b < |vs| == |bs|
  {
    bs[b] && forall j :: 0 <= j < b ==> Better(newest, vs[b], vs[j])
  }

  /** What the preference comes to for every table. If no slot overtakes, the leftmost extreme of all. */
  lemma {:induction false} PickNoneOvertaking(vs: seq<nat>, bs: seq<bool>, newest: bool, n: nat)
    requires 0 < n <= |vs| == |bs| && forall j :: 0 <= j < n ==> !Overtakes(vs, bs, newest, j)
    ensures var k := Pick(vs, bs, newest, true, n);
            && !bs[k] && (forall j :: 0 <= j < n ==> !Better(newest, vs[j], vs[k]))
            && (forall j :: 0 <= j < k ==> Better(newest, vs[k], vs[j]))
  {
    if n == 1 {
      assert !Overtakes(vs, bs, newest, 0);
    } else {
      PickNoneOvertaking(vs, bs, newest, n - 1);
      assert !Overtakes(vs, bs, newest, n - 1);
    }
  }

  /** Otherwise, from the first one that does, the leftmost extreme bootable slot. */
  lemma {:induction false} PickAfterOvertaking(vs: seq<nat>, bs: seq<bool>, newest: bool, n: nat, b: nat)
    requires b < n <= |vs| == |bs| && Overtakes(vs, bs, newest, b) && forall j :: 0 <= j < b ==> !Overtakes(vs, bs, newest, j)
    ensures var k := Pick(vs, bs, newest, true, n);
            && b <= k && bs[k] && (forall j :: b <= j < n && bs[j] ==> !Better(newest, vs[j], vs[k]))
            && (forall j :: b <= j < k && bs[j] ==> Better(newest, vs[k], vs[j]))
    decreases n
  {
    if b < n - 1 {
      PickAfterOvertaking(vs, bs, newest, n - 1, b);
    } else if n > 1 {
      PickNoneOvertaking(vs, bs, newest, n - 1);
    }
  }

  lemma {:induction false} EqualKeepsFirst(vs: seq<nat>, bs: seq<bool>, newest: bool, prefer: bool, n: nat)
    requires 0 < n <= |vs| == |bs| && forall k :: 0 <= k < |vs| ==> vs[k] == vs[0]
    ensures Pick(vs, bs, newest, prefer, n) == 0
  {
    if n > 1 {
      EqualKeepsFirst(vs, bs, newest, prefer, n - 1);
    }
  }

  /** The preference holds for all versions if and only if the first slot is bootable: otherwise equal
      versions keep the first slot, whatever follows it. */
  lemma PreferenceIffBootableFirst(bs: seq<bool>, newest: bool)
    requires bs != []
    ensures (forall vs: seq<nat> | |vs| == |bs| :: LeftmostBest(vs, bs, newest, Pick(vs, bs, newest, true, |bs|))) <==> bs[0]
  {
    hide Pick, LeftmostBest;
    if bs[0] {
      forall vs: seq<nat> | |vs| == |bs|
        ensures LeftmostBest(vs, bs, newest, Pick(vs, bs, newest, true, |bs|))
      {
        PickIsLeftmostBootable(vs, bs, newest, |bs|);
        assert vs[..|bs|] == vs && bs[..|bs|] == bs;
      }
    } else {
      var vs: seq<nat> := seq(|bs|, _ => 0);
      EqualKeepsFirst(vs, bs, newest, true, |bs|);
      NotAmong(vs, bs, newest, 0);
    }
  }

  lemma NotAmong(vs: seq<nat>, among: seq<bool>, newest: bool, k: nat)
    requires k < |among| && !among[k]
    ensures !LeftmostBest(vs, among, newest, k)
  {}

  /** For instance, two slots of version 1 of which the second is bootable. */
  lemma PreferenceLost()
    ensures Pick([1, 1], [false, true], true, true, 2) == 0
  {
    EqualKeepsFirst([1, 1], [false, true], true, true, 2);
  }

  function Newest(vs: seq<nat>, bs: seq<bool>, prefer: bool): nat
    requires 0 < |vs| == |bs|
  {
    Pick(vs, bs, true, prefer, |vs|)
  }

  function Oldest(vs: seq<nat>, bs: seq<bool>, prefer: bool): nat
    requires 0 < |vs| == |bs|
  {
    Pick(vs, bs, false, prefer, |vs|)
  }

  /** What the four choices are, over the whole table. */
  lemma Choices(vs: seq<nat>, bs: seq<bool>)
    requires 0 < |vs| == |bs|
    ensures LeftmostBest(vs, seq(|vs|, _ => true), true, Newest(vs, bs, false))
    ensures LeftmostBest(vs, seq(|vs|, _ => true), false, Oldest(vs, bs, false))
    ensures bs[0] ==> LeftmostBest(vs, bs, true, Newest(vs, bs, true)) && LeftmostBest(vs, bs, false, Oldest(vs, bs, true))
  {
    hide LeftmostBest;
    assert vs[..|vs|] == vs && bs[..|vs|] == bs;
    PickIsLeftmost(vs, bs, true, |vs|);
    PickIsLeftmost(vs, bs, false, |vs|);
    if bs[0] {
      PickIsLeftmostBootable(vs, bs, true, |vs|);
      PickIsLeftmostBootable(vs, bs, false, |vs|);
    }
  }

  /** A slot strictly newer than the newest bootable one is not bootable, so an upgrade never
      exchanges a slot with itself. */
  lemma NewerIsNotBootable(vs: seq<nat>, bs: seq<bool>)
    requires 0 < |vs| == |bs| && bs[0]
    requires vs[Newest(vs, bs, true)] < vs[Newest(vs, bs, false)]
    ensures !bs[Newest(vs, bs, false)] && Newest(vs, bs, false) != Oldest(vs, bs, true)
  {
    Choices(vs, bs);
  }

  /** The slot an update is written to is not the running one whenever some slot is strictly older. */
  lemma TargetSparesRunning(vs: seq<nat>, bs: seq<bool>, older: nat)
    requires 0 < |vs| == |bs| && older < |vs| && vs[older] < vs[Newest(vs, bs, true)]
    ensures Oldest(vs, bs, false) != Newest(vs, bs, true)
  {
    Choices(vs, bs);
  }

  lemma BestIsUnique(vs: seq<nat>, among: seq<bool>, newest: bool, k: nat, k': nat)
    requires LeftmostBest(vs, among, newest, k) && LeftmostBest(vs, among, newest, k')
    ensures k == k'
  {}

  /** No slot is older, and none before it as old. */
  predicate FirstOldest(vs: seq<nat>, k: nat)
    requires k < |vs|
  {
    (forall j :: 0 <= j < |vs| ==> vs[k] <= vs[j]) && (forall j :: 0 <= j < k ==> vs[k] < vs[j])
  }

  /** It is the running one exactly if that is the first of the oldest slots. */
  lemma TargetIsRunningIff(vs: seq<nat>, bs: seq<bool>)
    requires 0 < |vs| == |bs|
    ensures Oldest(vs, bs, false) == Newest(vs, bs, true) <==> FirstOldest(vs, Newest(vs, bs, true))
  {
    hide Pick;
    Choices(vs, bs);
    var k, all := Newest(vs, bs, true), seq(|vs|, _ => true);
    if FirstOldest(vs, k) {
      BestIsUnique(vs, all, false, k, Oldest(vs, bs, false));
    }
  }

  function Bootables(slots: seq<Slot>): (bs: seq<bool>)
    ensures |bs| == |slots|
  {
    seq(|slots|, k requires 0 <= k < |slots| => slots[k].bootable)
  }

  /** Reads the manifests in table order. An empty table is no error, and sets no result. */
  method GetOrdered(d: Device, slots: seq<Slot>, newest: bool, prefer: bool) returns (id: nat, version: nat)
    requires Laid(d, slots)
    ensures |slots| > 0 ==> id == Pick(Versions(d.cells, slots), Bootables(slots), newest, prefer, |slots|)
                            && version == Versions(d.cells, slots)[id]
  {
    hide Version, Aligned, Pick;
    id, version := 0, 0;
    var first, bootable := true, false;
    ghost var vs, bs := Versions(d.cells, slots), Bootables(slots);
    for i := 0 to |slots|
      invariant first <==> i == 0
      invariant !first ==> id == Pick(vs, bs, newest, prefer, i) && version == vs[id] && bootable == bs[id]
    {
      var mt := Flash.Read(d, Object(slots[i], ReadOnly), SIZE, 0);
      SameManifest(mt, Image(d.cells, slots[i]));
      assert Version(mt) == vs[i];
      PickStep(vs, bs, newest, prefer, i);
      if first || (!(prefer && (bootable && !slots[i].bootable)) &&
                   ((newest && Version(mt) > version) || (!newest && Version(mt) < version))) {
        version, id, bootable, first := Version(mt), i, slots[i].bootable, false;
      }
    }
  }
}
