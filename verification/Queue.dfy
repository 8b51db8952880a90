/** The circular queue of src/lib/queue.c. */
module Queue {
  import opened Machine

  /** The fields of a CQueue_t, the lock apart; len is the length of buff. */
  datatype Ring = Ring(buff: seq<u32>, readI: nat, writeI: nat, numItems: nat)

  /** The index k places after i in a buffer of len places. */
  function Slot(i: nat, k: nat, len: nat): nat {
    if i + k < len then i + k else i + k - len
  }

  /** Between operations the write index is numItems places after the read index. */
  predicate RingInv(r: Ring) {
    && r.numItems <= |r.buff|
    && (if |r.buff| == 0 then r.readI == r.writeI == 0
        else r.readI < |r.buff| && r.writeI == Slot(r.readI, r.numItems, |r.buff|))
  }

  /** That place is the sum modulo the length. */
  lemma WriteIndexIsMod(r: Ring)
    requires RingInv(r) && |r.buff| > 0
    ensures r.writeI == (r.readI + r.numItems) % |r.buff|
  {
  }

  /** The items in the order they were written. */
  function Items(r: Ring): (items: seq<u32>)
    requires RingInv(r)
    ensures |items| == r.numItems
  {
    seq(r.numItems, k requires 0 <= k < r.numItems => r.buff[Slot(r.readI, k, |r.buff|)])
  }

  /** The ring after a value is stored and the write index moved on. */
  function Wrapped(i: nat, len: nat): nat {
    if i + 1 == len then 0 else i + 1
  }

  function Put(r: Ring, val: u32): Ring
    requires RingInv(r) && r.numItems < |r.buff|
  {
    r.(buff := r.buff[r.writeI := val], writeI := Wrapped(r.writeI, |r.buff|), numItems := r.numItems + 1)
  }

  function Take(r: Ring): Ring
    requires RingInv(r) && r.numItems > 0
  {
    r.(readI := Wrapped(r.readI, |r.buff|), numItems := r.numItems - 1)
  }

  /** Writing appends. */
  lemma PutAppends(r: Ring, val: u32)
    requires RingInv(r) && r.numItems < |r.buff|
    ensures RingInv(Put(r, val)) && Items(Put(r, val)) == Items(r) + [val]
  {
  }

  /** Reading removes the oldest. */
  lemma TakeRemoves(r: Ring)
    requires RingInv(r) && r.numItems > 0
    ensures RingInv(Take(r)) && Items(r) == [r.buff[r.readI]] + Items(Take(r))
  {
  }

  // ---------- Any sequence of operations ----------

  datatype Op = WriteOp(val: u32) | ReadOp

  /** The ring and what its reads returned; a write to a full ring and a read of an empty one do nothing. */
  function RunRing(r: Ring, ops: seq<Op>): (t: (Ring, seq<u32>))
    requires RingInv(r)
    ensures RingInv(t.0) && |t.0.buff| == |r.buff|
  {
    if ops == [] then (r, [])
    else
      var (t, out) := RunRing(r, ops[..|ops| - 1]);
      match ops[|ops| - 1]
      case WriteOp(val) => if t.numItems == |t.buff| then (t, out) else (PutAppends(t, val); Put(t, val), out)
      case ReadOp => if t.numItems == 0 then (t, out) else (TakeRemoves(t); Take(t), out + [t.buff[t.readI]])
  }

  /** The same on a plain sequence of at most cap items. */
  function RunFifo(items: seq<u32>, cap: nat, ops: seq<Op>): (seq<u32>, seq<u32>) {
    if ops == [] then (items, [])
    else
      var (t, out) := RunFifo(items, cap, ops[..|ops| - 1]);
      match ops[|ops| - 1]
      case WriteOp(val) => if |t| == cap then (t, out) else (t + [val], out)
      case ReadOp => if t == [] then (t, out) else (t[1..], out + [t[0]])
  }

  /** For every length and every sequence of operations the ring is a bounded first-in-first-out queue:
      the same contents and the same values read. */
  lemma {:induction false} RingIsFifo(r: Ring, ops: seq<Op>)
    requires RingInv(r)
    ensures var (t, out) := RunRing(r, ops); RunFifo(Items(r), |r.buff|, ops) == (Items(t), out)
  {
    if ops != [] {
      var last := |ops| - 1;
      RingIsFifo(r, ops[..last]);
      var t := RunRing(r, ops[..last]).0;
      if ops[last].WriteOp? && t.numItems < |t.buff| {
        PutAppends(t, ops[last].val);
      } else if ops[last].ReadOp? && t.numItems > 0 {
        TakeRemoves(t);
      }
    }
  }

  class CQueue {
    var readI: u32
    var writeI: u32
    const buff: array<u32>
    const len: u32
    var numItems: u32
    var lock: bool

    /** cqueue_create; the lock is whatever the memory held. */
    constructor (len: u32, garbage: bool)
      ensures Valid() && Contents() == [] && this.len == len && lock == garbage && fresh(buff)
    {
      this.len := len;
      buff := new u32[len];
      readI, writeI, numItems, lock := 0, 0, 0, garbage;
    }

    ghost function Abs(): Ring
      reads this, buff
    {
      Ring(buff[..], readI, writeI, numItems)
    }

    ghost predicate Valid()
      reads this, buff
    {
      buff.Length == len && RingInv(Abs())
    }

    /** The queue as its users see it. */
    ghost function Contents(): seq<u32>
      reads this, buff
      requires Valid()
    {
      Items(Abs())
    }

    /** cqueue_write: appends, or refuses exactly when the buffer is full. */
    method Write(val: u32) returns (ok: bool)
      requires Valid() && !lock
      modifies this`writeI, this`numItems, this`lock, buff
      ensures Valid() && !lock
      ensures ok <==> |old(Contents())| < len
      ensures Contents() == if ok then old(Contents()) + [val] else old(Contents())
    {
      lock := true;
      if numItems == len {
        lock := false;
        return false;
      }
      ghost var r := Abs();
      PutAppends(r, val);
      buff[writeI] := val;
      writeI := writeI + 1;
      if writeI == len {
        writeI := 0;
      }
      lock := false;
      numItems := numItems + 1;
      assert Abs() == Put(r, val);
      ok := true;
    }

    /** cqueue_read: the oldest item; on an empty queue the CPU halts with the lock held. */
    method Read() returns (halted: bool, val: u32)
      requires Valid() && !lock
      modifies this`readI, this`numItems, this`lock
      ensures Valid() && lock == halted == (old(Contents()) == [])
      ensures if halted then Contents() == old(Contents()) else old(Contents()) == [val] + Contents()
    {
      lock := true;
      if numItems == 0 {
        return true, 0;
      }
      ghost var r := Abs();
      TakeRemoves(r);
      val := buff[readI];
      readI := readI + 1;
      if readI == len {
        readI := 0;
      }
      numItems := numItems - 1;
      lock := false;
      assert Abs() == Take(r);
      halted := false;
    }
  }
}
