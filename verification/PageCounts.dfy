/** How num_pages_available and the bitmap drift apart, and what kalloc(0) costs. */
module PageCounts {
  import opened Machine
  import opened NextFit
  import opened Pages
  import opened PageRuns

  // ---------- Conservation ----------

  /** The pages one call gives back. */
  function ReleasedBy(s: PageState, op: Op): nat
    requires Sized(s)
  {
    if op.Free? && PageOf(s, op.ptr) < s.max then s.entries[PageOf(s, op.ptr)] else 0
  }

  /** The pages given back by the kfree calls of a run. */
  function Released(s: PageState, ops: seq<Op>): nat
    requires Sized(s)
  {
    if ops == [] then 0
    else
      var last := |ops| - 1;
      var before := Exec(s, ops[..last]);
      Released(s, ops[..last]) + if before.Some? then ReleasedBy(before.value, ops[last]) else 0
  }

  /** Whether one call makes num_pages_available wrap below 0. */
  function WrapsBy(s: PageState, op: Op): nat
    requires Sized(s)
  {
    if op.Alloc? && Grants(s, op.numBytes) && PagesFor(op.numBytes) > s.available then 1 else 0
  }

  /** How often the counter wraps in a run. */
  function Wraps(s: PageState, ops: seq<Op>): nat
    requires Sized(s)
  {
    if ops == [] then 0
    else
      var last := |ops| - 1;
      var before := Exec(s, ops[..last]);
      Wraps(s, ops[..last]) + if before.Some? then WrapsBy(before.value, ops[last]) else 0
  }

  lemma KallocCount(s: PageState, reserved: seq<bool>, numBytes: u64)
    requires Inv(s, reserved)
    ensures var t := Kalloc(s, numBytes).0;
            var n := PagesFor(numBytes);
            if Grants(s, numBytes) then
              CountClear(t.bits) == CountClear(s.bits) - n && t.available == Wrap64(s.available - n)
            else CountClear(t.bits) == CountClear(s.bits) && t.available == s.available
  {
    hide RunScan, BlocksApart, Agree, DivRoundUp, Wrap32, CountClear;
    var n := PagesFor(numBytes);
    var out := RunScan(s.bits, s.max, n, StartScan(s.cursor)).0;
    FoundInRange(s.bits, s.max, n, s.cursor);
    if out.Found? {
      CountClearMark(s.bits, out.start, n, true);
    }
  }

  lemma KfreeCount(s: PageState, reserved: seq<bool>, ptr: u64)
    requires Inv(s, reserved)
    requires PageOf(s, ptr) < s.max
    ensures var t := Kfree(s, ptr).value;
            CountClear(t.bits) == CountClear(s.bits) + s.entries[PageOf(s, ptr)] && t.available == s.available
  {
    var p := PageOf(s, ptr);
    forall i | p <= i < p + s.entries[p] ensures s.bits[i] {
      assert InBlock(s.entries, p, i);
    }
    CountClearMark(s.bits, p, s.entries[p], false);
  }

  lemma StepConservesPages(s: PageState, reserved: seq<bool>, op: Op)
    requires Inv(s, reserved) && Step(s, op).Some?
    ensures var t := Step(s, op).value;
            CountClear(t.bits) - t.available
            == CountClear(s.bits) - s.available + ReleasedBy(s, op) - WrapsBy(s, op) * TWO64
  {
    match op
    case Alloc(numBytes) =>
      KallocCount(s, reserved, numBytes);
    case Free(ptr) => KfreeCount(s, reserved, ptr);
  }

  /** Conservation over any run from a state whose counter is exact: the free pages are
      num_pages_available plus the pages released so far, less 2^64 for every time the counter wrapped. */
  lemma {:induction false} RunConservesPages(s: PageState, reserved: seq<bool>, ops: seq<Op>)
    requires Inv(s, reserved) && Exec(s, ops).Some?
    requires s.available == CountClear(s.bits)
    ensures var t := Exec(s, ops).value;
            CountClear(t.bits) == t.available + Released(s, ops) - Wraps(s, ops) * TWO64
  {
    if ops != [] {
      var last := |ops| - 1;
      RunConservesPages(s, reserved, ops[..last]);
      var reserved' := AnyRunKeepsInv(s, reserved, ops[..last]);
      StepConservesPages(Exec(s, ops[..last]).value, reserved', ops[last]);
    }
  }

  /** One call: the bound survives a granted request exactly when the request does not exceed the
      counter.  kfree never adds to the counter, so it can run out while pages are free. */
  lemma GrantKeepsLowerBound(s: PageState, reserved: seq<bool>, numBytes: u64)
    requires Inv(s, reserved) && |s.bits| < TWO64
    requires s.available <= CountClear(s.bits) && Grants(s, numBytes)
    ensures var t := Kalloc(s, numBytes).0;
            t.available <= CountClear(t.bits) <==> PagesFor(numBytes) <= s.available
  {
    KallocCount(s, reserved, numBytes);
    CountClearBound(s.bits);
    CountClearBound(Kalloc(s, numBytes).0.bits);
  }

  /** num_pages_available is at most the number of free pages in every state of the run. */
  ghost predicate BoundThroughout(s: PageState, ops: seq<Op>)
    requires Sized(s)
  {
    forall i :: 0 <= i <= |ops| ==> BoundAfter(s, ops[..i])
  }

  predicate BoundAfter(s: PageState, ops: seq<Op>)
    requires Sized(s)
  {
    var t := Exec(s, ops);
    t.Some? ==> t.value.available <= CountClear(t.value.bits)
  }

  lemma BoundOneFurther(s: PageState, ops: seq<Op>)
    requires Sized(s) && ops != []
    ensures BoundThroughout(s, ops) <==> BoundThroughout(s, ops[..|ops| - 1]) && BoundAfter(s, ops)
  {
    hide BoundAfter;
    var init := ops[..|ops| - 1];
    assert ops[..|ops|] == ops;
    assert forall i :: 0 <= i <= |init| ==> init[..i] == ops[..i];
  }

  /** One call, granted or not, free or not: the bound survives exactly if the counter does not wrap. */
  lemma StepKeepsLowerBound(s: PageState, reserved: seq<bool>, op: Op)
    requires Inv(s, reserved) && |s.bits| < TWO64 && Step(s, op).Some?
    requires s.available <= CountClear(s.bits)
    ensures Step(s, op).value.available <= CountClear(Step(s, op).value.bits) <==> WrapsBy(s, op) == 0
  {
    if op.Alloc? && Grants(s, op.numBytes) {
      GrantKeepsLowerBound(s, reserved, op.numBytes);
    } else {
      StepConservesPages(s, reserved, op);
    }
  }

  /** Over any run: at its end the counter is a lower bound on the free pages exactly if it has not wrapped
      more often than 2^64 pages have been released; and it is one in every state of the run exactly if
      no granted request exceeded it. */
  lemma {:induction false} AvailableIsLowerBound(s: PageState, reserved: seq<bool>, ops: seq<Op>)
    requires Inv(s, reserved) && Exec(s, ops).Some?
    requires s.available == CountClear(s.bits)
    ensures var t := Exec(s, ops).value;
            t.available <= CountClear(t.bits) <==> Wraps(s, ops) * TWO64 <= Released(s, ops)
    ensures |s.bits| < TWO64 ==> (BoundThroughout(s, ops) <==> Wraps(s, ops) == 0)
  {
    hide CountClear, SafeRequest, Step, WrapsBy, ReleasedBy;
    RunConservesPages(s, reserved, ops);
    if ops == [] {
      assert ops[..0] == ops;
    } else if |s.bits| < TWO64 {
      var init := ops[..|ops| - 1];
      AvailableIsLowerBound(s, reserved, init);
      var reserved' := AnyRunKeepsInv(s, reserved, init);
      BoundOneFurther(s, ops);
      var before := Exec(s, init).value;
      assert init[..|init|] == init;
      assert BoundThroughout(s, init) ==> BoundAfter(s, init);
      if before.available <= CountClear(before.bits) {
        StepKeepsLowerBound(before, reserved', ops[|ops| - 1]);
      }
    }
  }

  // ---------- Taking and giving back ----------

  /** Taking a page and giving it back restores the tables and leaves the counter one lower. */
  lemma OneCycle(s: PageState, reserved: seq<bool>, i: nat) returns (ptr: u64)
    requires Inv(s, reserved) && DirectMapped(s)
    requires i < s.max && !s.bits[i]
    ensures SafeRequest(s, 1) && Kalloc(s, 1).1 == ptr != 0
    ensures var u := Kfree(Kalloc(s, 1).0, ptr);
            u.Some? && u.value == s.(cursor := u.value.cursor, available := Wrap64(s.available - 1))
  {
    hide RunScan;
    var p := OnePageIsGranted(s, reserved, i);
    ptr := Kalloc(s, 1).1;
    FreeUndoesAlloc(s, reserved, 1);
  }

  /** A run of k calls of kalloc(1), each freed at once. */
  predicate Cycles(ops: seq<Op>, k: nat) {
    |ops| == 2 * k && forall j :: 0 <= j < |ops| ==> if j % 2 == 0 then ops[j] == Alloc(1) else ops[j].Free?
  }

  lemma {:induction false} CyclesLowerCounter(s: PageState, reserved: seq<bool>, i: nat, k: nat) returns (ops: seq<Op>)
    requires Inv(s, reserved) && DirectMapped(s)
    requires i < s.max && !s.bits[i]
    ensures Cycles(ops, k) && SafeRun(s, ops) && Exec(s, ops).Some?
    ensures var t := Exec(s, ops).value; t == s.(cursor := t.cursor, available := Wrap64(s.available - k))
  {
    hide Kalloc, Kfree, SafeRun, SafeRequest, RunScan;
    if k == 0 {
      ops := [];
      EmptyRun(s);
    } else {
      var before := CyclesLowerCounter(s, reserved, i, k - 1);
      var t := Exec(s, before).value;
      RunKeepsInv(s, reserved, before);
      var ptr := OneCycle(t, reserved, i);
      SafeRunAppend(s, before, Alloc(1));
      ExecAppend(s, before, Alloc(1));
      SafeRunAppend(s, before + [Alloc(1)], Free(ptr));
      ExecAppend(s, before + [Alloc(1)], Free(ptr));
      ops := before + [Alloc(1)] + [Free(ptr)];
      WrapOneMore(s.available, k - 1);
    }
  }

  lemma EmptyRun(s: PageState)
    requires Sized(s)
    ensures SafeRun(s, []) && Exec(s, []) == Some(s)
  {
  }

  lemma WrapOneMore(a: u64, k: nat)
    ensures Wrap64(Wrap64(a - k) - 1) == Wrap64(a - (k + 1))
  {
  }

  /** kfree never adds to the counter.  Wherever a page below max is free, taking it and giving it back
      once more often than the counter says leaves the tables as they were and the counter at 2^64 - 1. */
  lemma AvailableCanWrap(s: PageState, reserved: seq<bool>, i: nat) returns (ops: seq<Op>)
    requires Inv(s, reserved) && DirectMapped(s)
    requires i < s.max && !s.bits[i]
    ensures Cycles(ops, s.available + 1) && SafeRun(s, ops) && Exec(s, ops).Some?
    ensures var t := Exec(s, ops).value; t == s.(cursor := t.cursor, available := TWO64 - 1)
  {
    ops := CyclesLowerCounter(s, reserved, i, s.available + 1);
  }

  // ---------- Asking for nothing ----------

  /** The block at page 0 that kalloc of 0 pages wipes is lost: from such a call on its pages stay marked,
      whatever is asked for and freed, over every run. */
  lemma ZeroRequestLeaks(s: PageState, reserved: seq<bool>, numBytes: u64, ops: seq<Op>)
    requires Inv(s, reserved) && PagesFor(numBytes) == 0 && !SafeRequest(s, numBytes)
    ensures var t := Exec(Step(s, Alloc(numBytes)).value, ops);
            t.Some? ==> 0 < s.entries[0] <= |t.value.bits| && forall i :: 0 <= i < s.entries[0] ==> t.value.bits[i]
  {
    ZeroRequestReserves(s, reserved, numBytes);
    if Exec(Step(s, Alloc(numBytes)).value, ops).Some? {
      var reserved' := AnyRunKeepsInv(Kalloc(s, numBytes).0, Mark(reserved, 0, s.entries[0], true), ops);
    }
  }

  // ---------- Asking for 2^32 pages ----------

  /** The entry of a block of 2^32 pages or more holds its length modulo 2^32.  The pages behind that part
      are lost: from the call on they stay marked, whatever is asked for and freed, over every run. */
  lemma LongBlockLeaks(s: PageState, reserved: seq<bool>, numBytes: u64, ops: seq<Op>) returns (p: nat)
    requires Inv(s, reserved) && PagesFor(numBytes) >= TWO32 && Grants(s, numBytes)
    ensures Kalloc(s, numBytes).1 == AddrOf(s, p) && p + PagesFor(numBytes) <= s.max
    ensures var t := Exec(Step(s, Alloc(numBytes)).value, ops);
            t.Some? ==>
              && p + PagesFor(numBytes) <= |t.value.bits|
              && forall i :: p + Wrap32(PagesFor(numBytes)) <= i < p + PagesFor(numBytes) ==> t.value.bits[i]
  {
    p := LongRequestReserves(s, reserved, numBytes);
    var n := PagesFor(numBytes);
    if Exec(Step(s, Alloc(numBytes)).value, ops).Some? {
      var lost := Mark(reserved, p + Wrap32(n), n - Wrap32(n), true);
      var reserved' := AnyRunKeepsInv(Kalloc(s, numBytes).0, lost, ops);
    }
  }
}
