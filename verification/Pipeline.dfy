/** The last stages of the device pipeline: the fixed-size buffer and the slot writer. */
module Pipeline {
  import opened Bytes
  import opened Flash
  import opened NorCopy

  const BUFFER_LEN: nat := 1000

  /** Writes a slot opened for a full rewrite, from its beginning. */
  class Writer {
    const d: Device
    const obj: MemObject
    var written: nat

    ghost predicate Valid()
      reads this, d
    {
      && Placed(d, obj) && obj.mode == WriteAll
      && written <= obj.end - obj.start
      && AllClean(d.clean, obj.start + written, obj.end - obj.start - written)
    }

    ghost function Capacity(): int {
      obj.end - obj.start
    }

    /** The bytes written so far, as the slot holds them. */
    ghost function Stored(): (s: seq<byte>)
      requires Valid()
      reads this, d
      ensures |s| == written
    {
      Contents(d, obj)[..written]
    }

    constructor (d: Device, obj: MemObject)
      requires Placed(d, obj) && obj.mode == WriteAll && AllClean(d.clean, obj.start, obj.end - obj.start)
      ensures Valid() && this.d == d && this.obj == obj && Stored() == []
    {
      this.d, this.obj, this.written := d, obj, 0;
    }

    method Write(buf: seq<byte>) returns (ret: int)
      requires Valid() && |Stored()| + |buf| <= Capacity()
      modifies this, d
      ensures Valid() && ret == |buf|
      ensures Stored() == old(Stored()) + buf
      ensures d.disciplined == old(d.disciplined) && SameOutside(old(d.cells), d.cells, obj)
    {
      ghost var cells, clean := d.cells, d.clean;
      Flash.Write(d, obj, buf, written);
      WriteAppends(cells, clean, d.cells, obj, written, buf, d.page);
      written := written + |buf|;
      ret := |buf|;
    }
  }

  /** Programming clean bytes stores the data and nothing else. */
  lemma CleanTakesData(cells: seq<byte>, clean: seq<bool>, at: nat, buf: seq<byte>)
    requires |clean| == |cells| && at + |buf| <= |cells| && AllClean(clean, at, |buf|)
    requires forall a :: 0 <= a < |cells| && clean[a] ==> cells[a] == ERASED
    ensures forall a :: at <= a < at + |buf| ==> ProgrammedAt(cells, at, buf)[a] == buf[a - at]
  {
    hide And;
    forall a | at <= a < at + |buf|
      ensures ProgrammedAt(cells, at, buf)[a] == buf[a - at]
    {
      AndLaws(buf[a - at]);
    }
  }

  lemma StoredAfter(cells: seq<byte>, cells': seq<byte>, o: MemObject, written: nat, buf: seq<byte>)
    requires |cells'| == |cells| && o.start <= o.end <= |cells| && written + |buf| <= o.end - o.start
    requires forall a :: o.start + written <= a < o.start + written + |buf| ==> cells'[a] == buf[a - (o.start + written)]
    requires forall a :: 0 <= a < |cells| && !(o.start + written <= a < o.start + written + |buf|) ==> cells'[a] == cells[a]
    ensures cells'[o.start..o.end][..written + |buf|] == cells[o.start..o.end][..written] + buf
    ensures SameOutside(cells, cells', o)
  {
    var x, y := cells'[o.start..o.end][..written + |buf|], cells[o.start..o.end][..written] + buf;
    forall k | 0 <= k < |x|
      ensures x[k] == y[k]
    {
      var a := o.start + k;
      assert x[k] == cells'[a];
      if k < written {
        assert y[k] == cells[o.start..o.end][k] == cells[a];
      } else {
        assert y[k] == buf[k - written] && a - (o.start + written) == k - written;
      }
    }
  }

  /** A write to a slot opened for a full rewrite only programs. */
  lemma PlainWrite(cells: seq<byte>, o: MemObject, page: nat, buf: seq<byte>, offset: nat)
    requires page > 0 && o.mode == WriteAll
    ensures WrittenCells(cells, o, page, buf, offset) == ProgrammedAt(cells, o.start + offset, buf)
  {
    hide ProgrammedAt, Aligned;
  }

  lemma WriteAppends(cells: seq<byte>, clean: seq<bool>, cells': seq<byte>, o: MemObject, written: nat, buf: seq<byte>, page: nat)
    requires page > 0 && o.mode == WriteAll && o.start <= o.end <= |cells| && |clean| == |cells|
    requires written + |buf| <= o.end - o.start && AllClean(clean, o.start + written, |buf|)
    requires forall a :: 0 <= a < |cells| && clean[a] ==> cells[a] == ERASED
    requires cells' == WrittenCells(cells, o, page, buf, written)
    ensures cells'[o.start..o.end][..written + |buf|] == cells[o.start..o.end][..written] + buf
    ensures SameOutside(cells, cells', o)
  {
    hide *;
    PlainWrite(cells, o, page, buf, written);
    CleanTakesData(cells, clean, o.start + written, buf);
    StoredAfter(cells, cells', o, written, buf);
  }

  /** Collects bytes and passes them on a buffer at a time. */
  class BufferStage {
    const data: array<byte>
    var used: nat
    const next: Writer

    ghost predicate Valid()
      reads this, data, next, next.d
    {
      && data.Length == BUFFER_LEN && used <= BUFFER_LEN
      && next.Valid() && next.written % BUFFER_LEN == 0
    }

    /** Everything fed so far: what the slot holds and what waits in the buffer. */
    ghost function Delivered(): (s: seq<byte>)
      requires Valid()
      reads this, data, next, next.d
      ensures |s| == next.written + used
    {
      next.Stored() + data[..used]
    }

    constructor (next: Writer)
      requires next.Valid() && next.written == 0
      ensures Valid() && this.next == next && fresh(data) && Delivered() == next.Stored()
    {
      this.data := new byte[BUFFER_LEN];
      this.used := 0;
      this.next := next;
    }

    /** Takes bytes the buffer has room for. */
    method Take(s: seq<byte>)
      requires Valid() && used + |s| <= BUFFER_LEN
      modifies this, data
      ensures Valid() && Delivered() == old(Delivered()) + s && used == old(used) + |s|
    {
      hide Writer.Valid, Writer.Stored;
      ghost var stored, before := next.Stored(), data[..used];
      CopyIn(data, used, s);
      used := used + |s|;
      Assoc(stored, before, s);
    }

    /** Passes a full buffer on. */
    method Drain()
      requires Valid() && used == BUFFER_LEN && |Delivered()| <= next.Capacity()
      modifies this, next, next.d
      ensures Valid() && Delivered() == old(Delivered()) && used == 0
      ensures next.d.disciplined == old(next.d.disciplined) && SameOutside(old(next.d.cells), next.d.cells, next.obj)
    {
      hide Writer.Valid, Writer.Stored, SameOutside;
      var _ := next.Write(data[..used]);
      used := 0;
      assert data[..0] == [];
    }

    /** Every byte is kept, in order, whatever lengths it is fed in. They are passed on a full buffer at
        a time, and only when another byte comes. */
    method Feed(buf: seq<byte>) returns (ret: int)
      requires Valid() && |Delivered()| + |buf| <= next.Capacity()
      modifies this, data, next, next.d
      ensures Valid() && ret == |buf|
      ensures Delivered() == old(Delivered()) + buf
      ensures if |buf| > 0 then used > 0 else used == old(used)
      ensures next.d.disciplined == old(next.d.disciplined) && SameOutside(old(next.d.cells), next.d.cells, next.obj)
    {
      hide Writer.Valid, Writer.Stored, SameOutside, Delivered;
      ghost var cells0, all := next.d.cells, Delivered();
      SameStart(cells0, next.obj);
      assert all + buf[..0] == all;
      var p := 0;
      while p < |buf|
        invariant Valid() && p <= |buf|
        invariant Delivered() == all + buf[..p] && (p > 0 ==> used > 0 || p < |buf|) && (p == 0 && |buf| == 0 ==> used == old(used))
        invariant next.d.disciplined == old(next.d.disciplined) && SameOutside(cells0, next.d.cells, next.obj)
        decreases |buf| - p, used
      {
        var empty := BUFFER_LEN - used;
        if empty > 0 {
          var min := if |buf| - p < empty then |buf| - p else empty;
          Take(buf[p..p + min]);
          Assoc(all, buf[..p], buf[p..p + min]);
          assert buf[..p] + buf[p..p + min] == buf[..p + min];
          p := p + min;
        } else {
          ghost var cells1 := next.d.cells;
          Drain();
          SameTrans(cells0, cells1, next.d.cells, next.obj);
        }
      }
      assert buf[..p] == buf;
      ret := |buf|;
    }

    /** Passes on what waits in the buffer. */
    method Clear()
      requires Valid() && |Delivered()| <= next.Capacity()
      modifies next, next.d
      ensures next.Valid() && next.Stored() == old(Delivered())
      ensures next.d.disciplined == old(next.d.disciplined) && SameOutside(old(next.d.cells), next.d.cells, next.obj)
    {
      var _ := next.Write(data[..used]);
    }
  }

  /** How many of `n` bytes wait in the buffer, and how many are in the slot, after the last of them
      was fed. */
  function Pending(n: nat): (k: nat)
    ensures k <= n && k <= BUFFER_LEN
  {
    if n == 0 then 0 else (n - 1) % BUFFER_LEN + 1
  }

  function Flushed(n: nat): nat {
    n - Pending(n)
  }

  lemma FlushedIs(written: nat, used: nat)
    requires written % BUFFER_LEN == 0 && 0 < used <= BUFFER_LEN
    ensures Flushed(written + used) == written
  {}

  method CopyIn(data: array<byte>, at: nat, s: seq<byte>)
    requires at + |s| <= data.Length
    modifies data
    ensures data[..at + |s|] == old(data[..at]) + s
  {
    for i := 0 to |s|
      invariant forall k :: 0 <= k < at ==> data[k] == old(data[k])
      invariant forall k :: at <= k < at + i ==> data[k] == s[k - at]
    {
      data[at + i] := s[i];
    }
  }
}
