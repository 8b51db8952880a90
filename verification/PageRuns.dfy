/** What kalloc and kfree promise their callers, call by call and over whole runs. */
module PageRuns {
  import opened Machine
  import opened NextFit
  import opened Pages

  // ---------- One call ----------

  /** kalloc finds a place for the request. */
  predicate Grants(s: PageState, numBytes: u64)
    requires Sized(s)
  {
    RunScan(s.bits, s.max, PagesFor(numBytes), StartScan(s.cursor)).0.Found?
  }

  /** The higher-half direct map does not wrap around and does not start at address 0. */
  predicate DirectMapped(s: PageState) {
    0 < s.lowest + s.hhdm && s.lowest + s.hhdm + s.max * PAGE_SIZE <= TWO64
  }

  lemma AddrIsDirect(s: PageState, p: nat)
    requires DirectMapped(s) && p < s.max
    ensures AddrOf(s, p) == s.lowest + s.hhdm + p * PAGE_SIZE != 0
  {
  }

  /** kalloc, for every request.  For n > 0 pages it returns the next-fit block, made of pages that were
      free, reserved by nobody and part of no block, and records its size in 32 bits; or it returns 0,
      changes no table, and there is no free run of n pages below max.  For 0 pages it returns page 0
      exactly when the page under the cursor is in use. */
  lemma KallocIsNextFit(s: PageState, reserved: seq<bool>, numBytes: u64) returns (r: Option<nat>)
    requires Inv(s, reserved) && DirectMapped(s)
    ensures PagesFor(numBytes) > 0 ==> IsNextFit(s.bits, s.cursor, PagesFor(numBytes), s.max, r)
    ensures PagesFor(numBytes) == 0 ==> r == if s.bits[s.cursor] then Some(0) else None
    ensures r.None? ==> Kalloc(s, numBytes) == (s.(cursor := 0), 0)
    ensures r.None? && PagesFor(numBytes) > 0 ==> forall q: nat :: !FreeRun(s.bits, q, PagesFor(numBytes), s.max)
    ensures r.Some? ==> GivesBlock(s, reserved, r.value, PagesFor(numBytes), Kalloc(s, numBytes).0, Kalloc(s, numBytes).1)
  {
    var n := PagesFor(numBytes);
    SearchResult(s.bits, s.max, n, s.cursor);
    var out := RunScan(s.bits, s.max, n, StartScan(s.cursor)).0;
    r := if out.Found? then Some(out.start) else None;
    if out.Found? {
      AddrIsDirect(s, out.start);
      forall i | out.start <= i < out.start + n ensures !s.bits[i] && !reserved[i] && !Covered(s.entries, i) {
        FreePage(s, reserved, i);
      }
    }
  }

  /** From s to t the n pages from p on, all free before, become one block, returned as ptr; nothing
      else changes but the counter, and the cursor stands just past the block, or for 0 pages one on. */
  ghost predicate GivesBlock(s: PageState, reserved: seq<bool>, p: nat, n: nat, t: PageState, ptr: u64) {
    && p < s.max && p + n <= s.max <= |s.bits| == |reserved| && s.max <= |s.entries|
    && ptr == AddrOf(s, p) == s.lowest + s.hhdm + p * PAGE_SIZE != 0
    && t == s.(bits := Mark(s.bits, p, n, true), entries := s.entries[p := Wrap32(n)],
               available := Wrap64(s.available - n),
               cursor := if n == 0 then Advance(s.cursor, s.max) else if p + n == s.max then 0 else p + n)
    && (forall i :: p <= i < p + n ==> !s.bits[i] && !reserved[i] && !Covered(s.entries, i))
  }

  /** kfree(kalloc(n)) never halts, and gives back the bitmap and the entry map exactly if and only if the
      request was safe. */
  lemma FreeUndoesAlloc(s: PageState, reserved: seq<bool>, numBytes: u64)
    requires Inv(s, reserved) && DirectMapped(s)
    requires Kalloc(s, numBytes).1 != 0
    ensures var (t, ptr) := Kalloc(s, numBytes);
            && Kfree(t, ptr).Some?
            && var u := Kfree(t, ptr).value;
               && u == t.(bits := u.bits, entries := u.entries)
               && (u.bits == s.bits && u.entries == s.entries <==> SafeRequest(s, numBytes))
  {
    hide RunScan, Kalloc;
    var r := KallocIsNextFit(s, reserved, numBytes);
    var t := Kalloc(s, numBytes).0;
    var p, n := r.value, PagesFor(numBytes);
    PageAddressRoundTrip(t, p);
    assert PageOf(t, AddrOf(t, p)) == p;
    var u := Kfree(t, AddrOf(t, p)).value;
    if n == 0 {
      assert t.bits == s.bits == u.bits;
      assert u.entries[0] == 0;
      assert s.entries[0] == 0 ==> u.entries == s.entries;
    } else {
      FreePage(s, reserved, p);
      assert t.entries[p := 0] == s.entries;
      if n < TWO32 {
        assert Mark(t.bits, p, n, false) == s.bits;
      } else {
        assert FreeRun(s.bits, p, n, s.max);
        assert u.bits[p + n - 1] && !s.bits[p + n - 1];
      }
    }
  }

  /** What kfree does at every pointer: it halts exactly past max; otherwise it clears the pages the entry
      names and the entry, and touches nothing else, the counter and the cursor included. */
  lemma KfreeExactly(s: PageState, ptr: u64)
    requires Sized(s)
    ensures Kfree(s, ptr).None? <==> PageOf(s, ptr) >= s.max
    ensures Kfree(s, ptr).Some? ==>
              var p, t := PageOf(s, ptr), Kfree(s, ptr).value;
              && t == s.(bits := t.bits, entries := t.entries) && |t.bits| == |s.bits| && |t.entries| == |s.entries|
              && (forall i :: 0 <= i < |s.bits| ==> (t.bits[i] <==> s.bits[i] && !InBlock(s.entries, p, i)))
              && (forall q :: 0 <= q < |s.entries| ==> t.entries[q] == if q == p then 0 else s.entries[q])
  {
  }

  /** kfree at an in-range page changes nothing if and only if no block starts there: a double free or
      a pointer into the middle of a block is without effect. */
  lemma StrayFreeDoesNothing(s: PageState, ptr: u64)
    requires Sized(s) && PageOf(s, ptr) < s.max
    ensures Kfree(s, ptr) == Some(s) <==> s.entries[PageOf(s, ptr)] == 0
  {
    var p := PageOf(s, ptr);
    assert s.entries[p := 0][p] == 0;
    if s.entries[p] == 0 {
      assert Mark(s.bits, p, 0, false) == s.bits;
      assert s.entries[p := 0] == s.entries;
    }
  }

  /** Every page inside a block but its first is such a page. */
  lemma InteriorPageStartsNoBlock(s: PageState, reserved: seq<bool>, p: nat, i: nat)
    requires Inv(s, reserved)
    requires InBlock(s.entries, p, i) && i != p
    ensures i < s.max && s.entries[i] == 0
  {
  }

  // ---------- Runs ----------

  datatype Op = Alloc(numBytes: u64) | Free(ptr: u64)

  /** One call; None after the halt in kfree. */
  function Step(s: PageState, op: Op): (r: Option<PageState>)
    requires Sized(s)
    ensures r.Some? ==> Sized(r.value) && |r.value.bits| == |s.bits|
  {
    match op
    case Alloc(numBytes) => Some(Kalloc(s, numBytes).0)
    case Free(ptr) => Kfree(s, ptr)
  }

  /** The calls of a run in order. */
  function Exec(s: PageState, ops: seq<Op>): (r: Option<PageState>)
    requires Sized(s)
    ensures r.Some? ==> Sized(r.value) && |r.value.bits| == |s.bits|
  {
    if ops == [] then Some(s)
    else
      var before := Exec(s, ops[..|ops| - 1]);
      if before.None? then None else Step(before.value, ops[|ops| - 1])
  }

  /** Every request of the run is safe when it is made. */
  ghost predicate SafeRun(s: PageState, ops: seq<Op>)
    requires Sized(s)
  {
    ops != [] ==>
      var last := |ops| - 1;
      && SafeRun(s, ops[..last])
      && (ops[last].Alloc? && Exec(s, ops[..last]).Some? ==> SafeRequest(Exec(s, ops[..last]).value, ops[last].numBytes))
  }

  /** The requests a caller may freely make: at least a byte, no wrap in the rounding, and a scan
      region of fewer than 2^32 pages (16 TiB). */
  lemma OrdinaryRequestIsSafe(s: PageState, numBytes: u64)
    requires Sized(s)
    requires 0 < numBytes <= TWO64 - PAGE_SIZE && s.max < TWO32
    ensures SafeRequest(s, numBytes)
  {
    var n := PagesFor(numBytes);
    DivRoundUpIsCeiling(numBytes);
    if n >= TWO32 {
      SearchResult(s.bits, s.max, n, s.cursor);
    }
  }

  /** In every state of every safe run, whatever pointers are freed, bitmap and entry map agree. */
  lemma {:induction false} RunKeepsInv(s: PageState, reserved: seq<bool>, ops: seq<Op>)
    requires Inv(s, reserved) && SafeRun(s, ops)
    ensures Exec(s, ops).Some? ==> Inv(Exec(s, ops).value, reserved)
  {
    if ops != [] {
      var last := |ops| - 1;
      RunKeepsInv(s, reserved, ops[..last]);
      if Exec(s, ops[..last]).Some? {
        var t := Exec(s, ops[..last]).value;
        match ops[last]
        case Alloc(numBytes) => KallocKeepsInv(t, reserved, numBytes);
        case Free(ptr) =>
          if PageOf(t, ptr) < t.max {
            KfreeKeepsInv(t, reserved, ptr);
          }
      }
    }
  }

  /** The sizes and addresses never change. */
  lemma {:induction false} RunKeepsLayout(s: PageState, ops: seq<Op>)
    requires Sized(s)
    ensures Exec(s, ops).Some? ==>
              var t := Exec(s, ops).value;
              t.max == s.max && t.lowest == s.lowest && t.hhdm == s.hhdm && |t.entries| == |s.entries|
  {
    if ops != [] {
      RunKeepsLayout(s, ops[..|ops| - 1]);
    }
  }

  // ---------- What unsafe requests cost ----------

  /** kalloc of 0 pages with a block at page 0 and the cursor on a taken page: the block's pages become
      reserved pages, which nobody owns. */
  lemma ZeroRequestReserves(s: PageState, reserved: seq<bool>, numBytes: u64)
    requires Inv(s, reserved) && PagesFor(numBytes) == 0 && !SafeRequest(s, numBytes)
    ensures Inv(Kalloc(s, numBytes).0, Mark(reserved, 0, s.entries[0], true))
  {
    SearchResult(s.bits, s.max, 0, s.cursor);
    var t := Kalloc(s, numBytes).0;
    var reserved' := Mark(reserved, 0, s.entries[0], true);
    assert t.bits == s.bits && t.entries == s.entries[0 := 0];
    forall i | 0 <= i < |t.bits|
      ensures t.bits[i] == (reserved'[i] || Covered(t.entries, i)) && !(reserved'[i] && Covered(t.entries, i))
    {
      CoveredAfterClear(s.entries, s.max, 0, i);
      assert 0 <= i < s.entries[0] ==> InBlock(s.entries, 0, i);
    }
  }

  /** kalloc of 2^32 pages or more: the entry keeps the length modulo 2^32, and the pages behind that part
      become reserved pages. */
  lemma LongRequestReserves(s: PageState, reserved: seq<bool>, numBytes: u64) returns (p: nat)
    requires Inv(s, reserved) && PagesFor(numBytes) >= TWO32 && Grants(s, numBytes)
    ensures var n := PagesFor(numBytes);
            && p + n <= s.max
            && Inv(Kalloc(s, numBytes).0, Mark(reserved, p + Wrap32(n), n - Wrap32(n), true))
            && Kalloc(s, numBytes).0.entries == s.entries[p := Wrap32(n)] && Kalloc(s, numBytes).1 == AddrOf(s, p)
  {
    hide RunScan, BlocksApart;
    var n := PagesFor(numBytes);
    SearchResult(s.bits, s.max, n, s.cursor);
    p := RunScan(s.bits, s.max, n, StartScan(s.cursor)).0.start;
    var t := Kalloc(s, numBytes).0;
    var reserved' := Mark(reserved, p + Wrap32(n), n - Wrap32(n), true);
    FreePage(s, reserved, p);
    if Wrap32(n) > 0 {
      ReserveKeepsBlocksApart(s, reserved, p, Wrap32(n));
    } else {
      assert t.entries == s.entries;
    }
    forall i | 0 <= i < |t.bits|
      ensures t.bits[i] == (reserved'[i] || Covered(t.entries, i)) && !(reserved'[i] && Covered(t.entries, i))
    {
      CoveredAfterStart(s.entries, p, Wrap32(n), i);
      if p <= i < p + n {
        FreePage(s, reserved, i);
      }
    }
  }

  /** Nothing is reserved less, and nothing from max on is reserved more. */
  predicate Grows(reserved: seq<bool>, reserved': seq<bool>, max: nat) {
    && |reserved| == |reserved'|
    && (forall i :: 0 <= i < |reserved| && reserved[i] ==> reserved'[i])
    && (forall i :: max <= i < |reserved| ==> reserved'[i] == reserved[i])
  }

  /** One call, safe or not: bitmap and entry map agree, but for pages that have become reserved. */
  lemma AnyStepKeepsInv(s: PageState, reserved: seq<bool>, op: Op) returns (reserved': seq<bool>)
    requires Inv(s, reserved) && Step(s, op).Some?
    ensures Grows(reserved, reserved', s.max) && Inv(Step(s, op).value, reserved')
  {
    hide RunScan, SafeRequest, BlocksApart, Agree;
    reserved' := reserved;
    match op
    case Alloc(numBytes) =>
      KallocKeepsInv(s, reserved, numBytes);
      if !SafeRequest(s, numBytes) {
        if PagesFor(numBytes) == 0 {
          ZeroRequestReserves(s, reserved, numBytes);
          BlockZeroIsBelowMax(s, reserved);
          reserved' := Mark(reserved, 0, s.entries[0], true);
        } else {
          UnsafeIsGranted(s, numBytes);
          var p := LongRequestReserves(s, reserved, numBytes);
          var n := PagesFor(numBytes);
          reserved' := Mark(reserved, p + Wrap32(n), n - Wrap32(n), true);
        }
      }
    case Free(ptr) => KfreeKeepsInv(s, reserved, ptr);
  }

  lemma BlockZeroIsBelowMax(s: PageState, reserved: seq<bool>)
    requires Inv(s, reserved)
    ensures s.entries[0] <= s.max
  {
  }

  lemma UnsafeIsGranted(s: PageState, numBytes: u64)
    requires Sized(s) && !SafeRequest(s, numBytes) && PagesFor(numBytes) > 0
    ensures PagesFor(numBytes) >= TWO32 && Grants(s, numBytes)
  {
    hide RunScan;
    SearchResult(s.bits, s.max, PagesFor(numBytes), s.cursor);
  }

  /** Any run, whatever is asked for and freed: bitmap and entry map agree, but for pages below max that
      unsafe requests have turned into reserved ones. */
  lemma {:induction false} AnyRunKeepsInv(s: PageState, reserved: seq<bool>, ops: seq<Op>) returns (reserved': seq<bool>)
    requires Inv(s, reserved) && Exec(s, ops).Some?
    ensures Grows(reserved, reserved', s.max) && Inv(Exec(s, ops).value, reserved')
  {
    hide Step, BlocksApart, Agree;
    reserved' := reserved;
    if ops != [] {
      var last := |ops| - 1;
      reserved' := AnyRunKeepsInv(s, reserved, ops[..last]);
      RunKeepsLayout(s, ops[..last]);
      reserved' := AnyStepKeepsInv(Exec(s, ops[..last]).value, reserved', ops[last]);
    }
  }

  /** No call ever touches a bit at or past max. */
  lemma BitsPastMaxStay(s: PageState, reserved: seq<bool>, ops: seq<Op>, i: nat)
    requires Inv(s, reserved) && Exec(s, ops).Some?
    requires s.max <= i < |s.bits|
    ensures Exec(s, ops).value.bits[i] == s.bits[i]
  {
    var reserved' := AnyRunKeepsInv(s, reserved, ops);
    RunKeepsLayout(s, ops);
    var t := Exec(s, ops).value;
    assert !Covered(s.entries, i) && !Covered(t.entries, i);
  }

  /** After any run, kalloc still gives out only pages that were not reserved at its start. */
  lemma RunThenKalloc(s: PageState, reserved: seq<bool>, ops: seq<Op>, numBytes: u64) returns (r: Option<nat>)
    requires Inv(s, reserved) && DirectMapped(s) && Exec(s, ops).Some?
    ensures r.None? ==> Kalloc(Exec(s, ops).value, numBytes).1 == 0
    ensures r.Some? ==>
              && Kalloc(Exec(s, ops).value, numBytes).1 == s.lowest + s.hhdm + r.value * PAGE_SIZE != 0
              && r.value + PagesFor(numBytes) <= s.max <= |reserved|
              && forall i :: r.value <= i < r.value + PagesFor(numBytes) ==> !reserved[i]
  {
    var reserved' := AnyRunKeepsInv(s, reserved, ops);
    RunKeepsLayout(s, ops);
    r := KallocIsNextFit(Exec(s, ops).value, reserved', numBytes);
  }

  /** The first unsafe request breaks the agreement: for a run whose earlier requests were safe, the
      invariant holds after one more kalloc if and only if that request is safe. */
  lemma UnsafeRequestBreaksInv(s: PageState, reserved: seq<bool>, ops: seq<Op>, numBytes: u64)
    requires Inv(s, reserved) && SafeRun(s, ops) && Exec(s, ops).Some?
    ensures Inv(Exec(s, ops + [Alloc(numBytes)]).value, reserved) <==> SafeRequest(Exec(s, ops).value, numBytes)
  {
    RunKeepsInv(s, reserved, ops);
    KallocKeepsInv(Exec(s, ops).value, reserved, numBytes);
    assert (ops + [Alloc(numBytes)])[..|ops|] == ops;
  }

  // ---------- Runs one call longer ----------

  lemma ExecAppend(s: PageState, ops: seq<Op>, op: Op)
    requires Sized(s)
    ensures Exec(s, ops + [op]) == if Exec(s, ops).None? then None else Step(Exec(s, ops).value, op)
  {
    assert (ops + [op])[..|ops|] == ops;
  }

  lemma SafeRunAppend(s: PageState, ops: seq<Op>, op: Op)
    requires Sized(s) && SafeRun(s, ops) && Exec(s, ops).Some?
    requires op.Alloc? ==> SafeRequest(Exec(s, ops).value, op.numBytes)
    ensures SafeRun(s, ops + [op])
  {
    assert (ops + [op])[..|ops|] == ops;
  }

  /** While a page below max is free, kalloc of one page succeeds. */
  lemma OnePageIsGranted(s: PageState, reserved: seq<bool>, i: nat) returns (p: nat)
    requires Inv(s, reserved) && DirectMapped(s)
    requires i < s.max && !s.bits[i]
    ensures PagesFor(1) == 1 && SafeRequest(s, 1)
    ensures p < s.max && !s.bits[p]
    ensures GivesBlock(s, reserved, p, 1, Kalloc(s, 1).0, Kalloc(s, 1).1)
  {
    var r := KallocIsNextFit(s, reserved, 1);
    assert FreeRun(s.bits, i, 1, s.max);
    p := r.value;
  }

  /** It returns page i or leaves it free, with fewer free pages than before. */
  lemma OnePageFewer(s: PageState, reserved: seq<bool>, i: nat) returns (p: nat)
    requires Inv(s, reserved) && DirectMapped(s)
    requires i < s.max && !s.bits[i]
    ensures SafeRequest(s, 1)
    ensures p == i ==> Kalloc(s, 1).1 == AddrOf(s, i) != 0
    ensures p != i ==>
              var t := Kalloc(s, 1).0;
              t.max == s.max && i < |t.bits| && !t.bits[i] && CountClear(t.bits) < CountClear(s.bits)
  {
    hide RunScan, Kalloc, SafeRequest;
    p := OnePageIsGranted(s, reserved, i);
    CountClearMark(s.bits, p, 1, true);
  }

  /** Every page free below max is given out in the end: from every reachable state some number of
      one-page requests leads to one that returns it. */
  lemma {:induction false} EveryFreePageIsGranted(s: PageState, reserved: seq<bool>, ops: seq<Op>, i: nat) returns (more: seq<Op>)
    requires Inv(s, reserved) && DirectMapped(s) && Exec(s, ops).Some?
    requires var t := Exec(s, ops).value; i < t.max && !t.bits[i]
    ensures forall k :: 0 <= k < |more| ==> more[k] == Alloc(1)
    ensures Exec(s, ops + more).Some? && (SafeRun(s, ops) ==> SafeRun(s, ops + more))
    ensures Kalloc(Exec(s, ops + more).value, 1).1 == AddrOf(s, i) != 0
    decreases CountClear(Exec(s, ops).value.bits)
  {
    hide Exec, SafeRun, SafeRequest, RunScan, Kalloc, BlocksApart, Agree, CountClear, AddrOf;
    var t := Exec(s, ops).value;
    var reserved' := AnyRunKeepsInv(s, reserved, ops);
    RunKeepsLayout(s, ops);
    var p := OnePageFewer(t, reserved', i);
    SameAddress(s, t, i);
    if p == i {
      more := [];
      assert ops + more == ops;
    } else {
      if SafeRun(s, ops) {
        SafeRunAppend(s, ops, Alloc(1));
      }
      ExecAppend(s, ops, Alloc(1));
      var rest := EveryFreePageIsGranted(s, reserved, ops + [Alloc(1)], i);
      more := [Alloc(1)] + rest;
      assert ops + more == ops + [Alloc(1)] + rest;
    }
  }

  lemma SameAddress(s: PageState, t: PageState, i: nat)
    requires t.lowest == s.lowest && t.hhdm == s.hhdm
    ensures AddrOf(t, i) == AddrOf(s, i)
  {
  }

  /** After the run ops a kalloc of numBytes returns a block that page i lies in. */
  predicate GivesPage(s: PageState, ops: seq<Op>, numBytes: u64, i: int)
    requires Sized(s)
  {
    && Exec(s, ops).Some?
    && var t := Exec(s, ops).value;
       var ptr := Kalloc(t, numBytes).1;
       ptr != 0 && PageOf(t, ptr) <= i < PageOf(t, ptr) + PagesFor(numBytes)
  }

  /** Exactly which pages kalloc can ever return, over all runs and all requests: those below max that
      are not reserved. */
  lemma GivenPages(s: PageState, reserved: seq<bool>, i: nat)
    requires Inv(s, reserved) && DirectMapped(s)
    ensures (exists ops, numBytes :: GivesPage(s, ops, numBytes, i)) <==> i < s.max && !reserved[i]
  {
    if ops, numBytes :| GivesPage(s, ops, numBytes, i) {
      GivenPageIsBelowMax(s, reserved, ops, numBytes, i);
    }
    if i < s.max && !reserved[i] {
      var ops := UnreservedIsGranted(s, reserved, i);
      assert GivesPage(s, ops, 1, i);
    }
  }

  lemma GivenPageIsBelowMax(s: PageState, reserved: seq<bool>, ops: seq<Op>, numBytes: u64, i: nat)
    requires Inv(s, reserved) && DirectMapped(s) && GivesPage(s, ops, numBytes, i)
    ensures i < s.max && !reserved[i]
  {
    hide Kalloc;
    RunKeepsLayout(s, ops);
    var r := RunThenKalloc(s, reserved, ops, numBytes);
    var t := Exec(s, ops).value;
    assert AddrOf(t, r.value) == Kalloc(t, numBytes).1;
    PageAddressRoundTrip(t, r.value);
  }

  /** A page that is not free is in a block; freeing that block makes it free. */
  lemma UnreservedIsGranted(s: PageState, reserved: seq<bool>, i: nat) returns (ops: seq<Op>)
    requires Inv(s, reserved) && DirectMapped(s) && i < s.max && !reserved[i]
    ensures GivesPage(s, ops, 1, i)
  {
    hide Kalloc, RunScan;
    var first: seq<Op> := [];
    assert Exec(s, []) == Some(s);
    if s.bits[i] {
      var p :| InBlock(s.entries, p, i);
      PageAddressRoundTrip(s, p);
      first := [Free(AddrOf(s, p))];
      ExecAppend(s, [], first[0]);
      assert [] + [first[0]] == first;
    }
    var more := EveryFreePageIsGranted(s, reserved, first, i);
    ops := first + more;
    RunKeepsLayout(s, ops);
    PageAddressRoundTrip(s, i);
    DivRoundUpIsCeiling(1);
  }

  /** While n pages below max are free in a row, kalloc finds a place. */
  lemma RoomIsGranted(s: PageState, numBytes: u64, q: nat)
    requires Sized(s) && PagesFor(numBytes) > 0 && FreeRun(s.bits, q, PagesFor(numBytes), s.max)
    ensures Grants(s, numBytes)
  {
    SearchResult(s.bits, s.max, PagesFor(numBytes), s.cursor);
  }
}
