/** What boot leaves behind for those who come after it: pages out of kalloc's reach, the memory
    slob_init takes, and every CPU that calls the allocator. */
module AfterBoot {
  import opened Machine
  import opened NextFit
  import opened Pages
  import opened PageRuns
  import opened PageCounts
  import opened MemoryMap
  import opened Boot
  import opened Smp

  // ---------- What kmem_init leaves out of reach ----------

  /** max_pages_available counts the usable pages, but the scan takes it for the end of the bitmap, which
      also has bits for holes and tables.  So as many free pages lie at or past max, out of kalloc's
      reach, as there are taken pages below it; there are some exactly if there are any. */
  lemma FreePagesOutOfReach(mm: MemMap, hhdm: u64)
    requires Boots(mm)
    ensures var s := Booted(mm, hhdm);
            && s.max <= |s.bits|
            && CountClear(s.bits[s.max..]) == s.max - CountClear(s.bits[..s.max])
            && ((exists i :: s.max <= i < |s.bits| && !s.bits[i]) <==> (exists j :: 0 <= j < s.max && s.bits[j]))
  {
    var s := Booted(mm, hhdm);
    BootedBitmap(mm, hhdm);
    CountClearBound(s.bits);
    ClearPastMax(s.bits, s.max);
  }

  /** They stay out of reach: their bits are as boot left them after every run. */
  lemma OutOfReachForEver(mm: MemMap, hhdm: u64, ops: seq<Op>, i: nat)
    requires BootedRun(mm, hhdm, ops)
    requires Booted(mm, hhdm).max <= i < |Booted(mm, hhdm).bits|
    ensures i < |AfterRun(mm, hhdm, ops).bits| && AfterRun(mm, hhdm, ops).bits[i] == Booted(mm, hhdm).bits[i]
  {
    BootEstablishesInv(mm, hhdm);
    BitsPastMaxStay(Booted(mm, hhdm), Booted(mm, hhdm).bits, ops, i);
  }

  // ---------- memmap_alloc after kmem_init ----------

  /** Page i is one of those a memmap_alloc of size bytes takes after kmem_init. */
  predicate Carved(mm: MemMap, size: u64, i: int)
    requires HasBitmap(mm) && HasEntryMap(mm)
    requires FirstFit(Trimmed(mm), size).Some?
  {
    TakesPage(Trimmed(mm), size, LowestOf(mm), i)
  }

  /** memmap_alloc after kmem_init, as slob_init calls it, leaves the bitmap alone.  So the pages it calls
      free are exactly those taken and those of the map that is left, which SLOB then manages: the two
      allocators own the same pages. */
  lemma LaterCarveStaysFree(mm: MemMap, hhdm: u64, size: u64, i: nat)
    requires Boots(mm)
    requires size % PAGE_SIZE == 0 && FirstFit(Trimmed(mm), size).Some?
    ensures var s := Booted(mm, hhdm);
            (i < |s.bits| && !s.bits[i]) <==> Carved(mm, size, i) || UsablePage(Take(Trimmed(mm), size), LowestOf(mm), i)
  {
    hide Trimmed, FirstFit, BitmapSize, UsablePage, TakesPage, Take, LowestOf, HighestOf;
    TrimmedStarts(mm);
    SpansIff(Trimmed(mm), LowestOf(mm), 8 * BitmapSize(PageCount(mm)));
    BootedBitmap(mm, hhdm);
    TakeSplitsPages(Trimmed(mm), size, LowestOf(mm), i);
  }

  /** The same memmap_alloc takes its pages off max_pages_available. */
  function Shrunk(s: PageState, size: u64): PageState
    requires size / PAGE_SIZE <= s.max
  {
    s.(max := s.max - size / PAGE_SIZE)
  }

  /** After boot, any run and then that memmap_alloc, kalloc's scan is in order exactly if the cursor
      is still below the new max.  If it is not, the scan goes on through the bitmap to the least run at or
      past the cursor, all of it out of bounds, and reads past the bitmap exactly when there is none. */
  lemma LaterCarveShrinksScan(mm: MemMap, hhdm: u64, ops: seq<Op>, size: u64, n: nat)
    requires BootedRun(mm, hhdm, ops)
    requires size % PAGE_SIZE == 0 && FirstFit(Trimmed(mm), size).Some?
    ensures var s := AfterRun(mm, hhdm, ops);
            && size / PAGE_SIZE <= s.max
            && var t := Shrunk(s, size);
               && (Sized(t) <==> s.cursor < s.max - size / PAGE_SIZE)
               && (!Sized(t) && n > 0 ==>
                     var r := ScanPast(t.bits, t.max, n, StartScan(t.cursor));
                     if r.Some? then r.value.Found? && IsLeastRun(t.bits, t.cursor, n, |t.bits|, Some(r.value.start))
                     else IsLeastRun(t.bits, t.cursor, n, |t.bits|, None))
  {
    hide ScanPast, Trimmed, HasEntryMap;
    var s := AfterRun(mm, hhdm, ops);
    RunKeepsLayout(Booted(mm, hhdm), ops);
    PagesAfterTake(Trimmed(mm), size);
    var t := Shrunk(s, size);
    if !Sized(t) && n > 0 {
      ScanPastIsLeastRun(t.bits, t.max, n, t.cursor, StartScan(t.cursor));
    }
  }

  /** The cursor is not all: with a block past the new max bitmap and entry map no longer agree. */
  lemma ShrunkKeepsInvIff(s: PageState, reserved: seq<bool>, size: u64)
    requires Inv(s, reserved) && size / PAGE_SIZE <= s.max
    ensures var t := Shrunk(s, size);
            Inv(t, reserved)
            <==> t.cursor < t.max && forall p :: 0 <= p < |t.entries| && t.entries[p] > 0 ==> p + t.entries[p] <= t.max
  {
  }

  /** And kfree of a block that starts past the new max halts with the lock held; of no other block it does. */
  lemma ShrunkFreeHaltsIff(s: PageState, reserved: seq<bool>, size: u64, p: nat)
    requires Inv(s, reserved) && size / PAGE_SIZE <= s.max && s.cursor < s.max - size / PAGE_SIZE
    requires p < |s.entries| && s.entries[p] > 0
    ensures Sized(Shrunk(s, size))
    ensures Kfree(Shrunk(s, size), AddrOf(s, p)) == None <==> p >= s.max - size / PAGE_SIZE
  {
    PageAddressRoundTrip(s, p);
  }

  /** So kalloc gives out memory SLOB owns: right after boot and that memmap_alloc, some number of one-page
      requests leads to one that returns the address of a carved page, whichever lies below the new max. */
  lemma CarvedPageIsGranted(mm: MemMap, hhdm: u64, size: u64, i: nat) returns (ops: seq<Op>)
    requires BootedRun(mm, hhdm, [])
    requires size % PAGE_SIZE == 0 && FirstFit(Trimmed(mm), size).Some?
    requires Carved(mm, size, i) && i < Booted(mm, hhdm).max - size / PAGE_SIZE
    ensures var t := Shrunk(Booted(mm, hhdm), size);
            && Inv(t, t.bits) && SafeRun(t, ops) && Exec(t, ops).Some?
            && (forall k :: 0 <= k < |ops| ==> ops[k] == Alloc(1))
            && Kalloc(Exec(t, ops).value, 1).1 == LowestOf(mm) + hhdm + i * PAGE_SIZE
  {
    hide Trimmed, HasEntryMap, HasBitmap, BitmapSuffices, Kalloc, TotalPages, FreeUp, TakesPage, FirstFit, UsablePage;
    var s := Booted(mm, hhdm);
    var t := Shrunk(s, size);
    BootEstablishesInv(mm, hhdm);
    BootedIsDirectMapped(mm, hhdm);
    LaterCarveStaysFree(mm, hhdm, size, i);
    ShrunkKeepsInv(s, size);
    EmptyRun(t);
    ops := EveryFreePageIsGranted(t, t.bits, [], i);
    assert [] + ops == ops;
    AddrIsDirect(t, i);
  }

  /** Exactly: after boot and that memmap_alloc, with some page left
      below the new max, some run leads kalloc to return a given carved page if and only if the page lies
      below the new max; and of all pages it can return exactly those below it that boot left free. */
  lemma CarvedPageIsGrantedIff(mm: MemMap, hhdm: u64, size: u64, i: nat)
    requires BootedRun(mm, hhdm, [])
    requires size % PAGE_SIZE == 0 && FirstFit(Trimmed(mm), size).Some?
    requires size / PAGE_SIZE < Booted(mm, hhdm).max
    ensures var t := Shrunk(Booted(mm, hhdm), size);
            && Inv(t, t.bits)
            && (Carved(mm, size, i) ==> ((exists ops, numBytes :: GivesPage(t, ops, numBytes, i)) <==> i < t.max))
            && ((exists ops, numBytes :: GivesPage(t, ops, numBytes, i)) <==> i < t.max && !t.bits[i])
  {
    hide Trimmed, HasEntryMap, HasBitmap, BitmapSuffices, Kalloc, TotalPages, FreeUp, TakesPage, FirstFit, UsablePage, GivesPage;
    var s := Booted(mm, hhdm);
    var t := Shrunk(s, size);
    BootEstablishesInv(mm, hhdm);
    BootedIsDirectMapped(mm, hhdm);
    LaterCarveStaysFree(mm, hhdm, size, i);
    ShrunkKeepsInv(s, size);
    GivenPages(t, t.bits, i);
  }

  lemma ShrunkKeepsInv(s: PageState, size: u64)
    requires Inv(s, s.bits) && DirectMapped(s) && s.cursor == 0 && size / PAGE_SIZE < s.max
    requires forall p :: 0 <= p < |s.entries| ==> s.entries[p] == 0
    ensures Inv(Shrunk(s, size), s.bits) && DirectMapped(Shrunk(s, size))
  {
  }

  // ---------- The departures of kalloc and kfree, from boot ----------

  /** On every machine whose boot leaves a page free below max, num_pages_available wraps: taking a page
      and giving it back once more often than there are pages leaves the bitmap as boot made it and the
      counter at 2^64 - 1, above the number of free pages. */
  lemma CounterWrapsAfterBoot(mm: MemMap, hhdm: u64, i: nat) returns (ops: seq<Op>)
    requires BootedRun(mm, hhdm, [])
    requires i < Booted(mm, hhdm).max && !Booted(mm, hhdm).bits[i]
    ensures var s := Booted(mm, hhdm);
            && Cycles(ops, s.available + 1) && BootedRun(mm, hhdm, ops)
            && var t := AfterRun(mm, hhdm, ops);
               t.bits == s.bits && CountClear(t.bits) == s.available < t.available == TWO64 - 1
  {
    hide FreeUp, Trimmed, HasEntryMap, HasBitmap, TotalPages;
    var s := Booted(mm, hhdm);
    BootEstablishesInv(mm, hhdm);
    BootedIsDirectMapped(mm, hhdm);
    BootedBitmap(mm, hhdm);
    ops := AvailableCanWrap(s, s.bits, i);
  }

  /** On every machine whose boot leaves page 0 free and page 1 not, kalloc(1), kalloc(0) lose page 0:
      after them no kfree and no other later call ever makes it free again. */
  lemma ZeroRequestLeaksAfterBoot(mm: MemMap, hhdm: u64, ops: seq<Op>)
    requires BootedRun(mm, hhdm, [])
    requires var s := Booted(mm, hhdm); s.max > 1 && !s.bits[0] && s.bits[1]
    ensures var t := Exec(Booted(mm, hhdm), [Alloc(1), Alloc(0)]);
            && t.Some? && t.value.entries == Booted(mm, hhdm).entries
            && var u := Exec(t.value, ops);
               u.Some? ==> |u.value.bits| > 0 && u.value.bits[0]
  {
    hide FreeUp, Trimmed, HasEntryMap, HasBitmap, TotalPages, RunScan;
    var s := Booted(mm, hhdm);
    BootEstablishesInv(mm, hhdm);
    BootedIsDirectMapped(mm, hhdm);
    EmptyRun(s);
    ExecAppend(s, [], Alloc(1));
    ExecAppend(s, [Alloc(1)], Alloc(0));
    assert [] + [Alloc(1)] == [Alloc(1)] && [Alloc(1)] + [Alloc(0)] == [Alloc(1), Alloc(0)];
    var r := KallocIsNextFit(s, s.bits, 1);
    assert FreeRun(s.bits, 0, 1, s.max);
    assert r == Some(0);
    var t := Kalloc(s, 1).0;
    KallocKeepsInv(s, s.bits, 1);
    assert t.cursor == 1 && t.bits[1] && t.entries[0] == 1;
    ZeroRequestLeaks(t, s.bits, 0, ops);
    ZeroRequest(t);
    assert t.entries[0 := 0] == s.entries;
  }

  lemma ZeroRequest(s: PageState)
    requires Sized(s) && s.bits[s.cursor]
    ensures PagesFor(0) == 0 && Kalloc(s, 0).0.entries == s.entries[0 := 0]
  {
    SearchResult(s.bits, s.max, 0, s.cursor);
  }

  // ---------- Machines that show it ----------

  /** One entry of n pages: both tables come off its front, d pages in all, so the other pages are free, the
      last d of them out of reach. */
  lemma OneEntryMachine(mm: MemMap, n: nat, d: nat, hhdm: u64)
    requires n < TWO64 / 4096 - 1 && mm == [MemEntry(4096, n * 4096, true)] && hhdm + (n + 1) * 4096 <= TWO64
    requires !(1 <= n % 32768 <= 7) && d < n && BitmapSize(n) + EntryMapSize(n) == d * 4096
    ensures BootedRun(mm, hhdm, []) && Trimmed(mm) == [MemEntry((d + 1) * 4096, (n - d) * 4096, true)]
    ensures var s := Booted(mm, hhdm);
            s.max == n - d && n <= |s.bits| && forall i :: 0 <= i < |s.bits| ==> (!s.bits[i] <==> d <= i < n)
  {
    hide FirstFit, Take, Taken, TotalPages, LowestOf, HighestOf, FreeUp, BitmapSize, EntryMapSize, UsablePage, HasBitmap, HasEntryMap;
    OneEntryTrimmed(mm, n, d);
    OneEntry(Trimmed(mm));
    FullBitmapSuffices(mm);
    SizedAfterBoot(mm, hhdm);
    BootedBitmap(mm, hhdm);
    BitmapCovers(n);
    forall i | 0 <= i < |Booted(mm, hhdm).bits|
      ensures UsablePage(Trimmed(mm), 4096, i) <==> d <= i < n
    {
      OneEntryPages(Trimmed(mm), n, d, i);
    }
  }

  lemma OneEntryTrimmed(mm: MemMap, n: nat, d: nat)
    requires n < TWO64 / 4096 - 1 && mm == [MemEntry(4096, n * 4096, true)]
    requires d < n && BitmapSize(n) + EntryMapSize(n) == d * 4096
    ensures HasBitmap(mm) && HasEntryMap(mm) && Trimmed(mm) == [MemEntry((d + 1) * 4096, (n - d) * 4096, true)]
    ensures PageCount(mm) == n && LowestOf(mm) == 4096 && HighestOf(mm) == (n + 1) * 4096
  {
    hide FirstFit, Take, LowestOf, HighestOf, BitmapSize, EntryMapSize;
    OneEntry(mm);
    TakenFrom(mm, BitmapSize(n), 0);
    var mm1 := Take(mm, BitmapSize(n));
    TakenFrom(mm1, EntryMapSize(n), 0);
  }

  lemma OneEntryPages(mm: MemMap, n: nat, d: nat, i: nat)
    requires d < n < TWO64 / 4096 - 1 && mm == [MemEntry((d + 1) * 4096, (n - d) * 4096, true)]
    ensures UsablePage(mm, 4096, i) <==> d <= i < n
  {
    PageRange(mm[0], 4096, i);
    assert UsablePage(mm, 4096, i) <==> PageIn(mm[0], 4096, i);
  }

  /** Up to 4 MiB both tables take a page, and the next memmap_alloc of a page takes page 2. */
  lemma SmallMachine(mm: MemMap, n: nat, hhdm: u64)
    requires 8 <= n <= 1024 && mm == [MemEntry(4096, n * 4096, true)] && hhdm + (n + 1) * 4096 <= TWO64
    ensures BootedRun(mm, hhdm, [])
    ensures FirstFit(Trimmed(mm), 4096).Some? && Carved(mm, 4096, 2)
    ensures var s := Booted(mm, hhdm);
            s.max == n - 2 && n <= |s.bits| && forall i :: 0 <= i < |s.bits| ==> (!s.bits[i] <==> 2 <= i < n)
  {
    hide FirstFit, Take, TotalPages, LowestOf, HighestOf, FreeUp, Booted, Trimmed;
    assert BitmapSize(n) == 4096 && EntryMapSize(n) == 4096;
    OneEntryMachine(mm, n, 2, hhdm);
    OneEntryTrimmed(mm, n, 2);
    OneEntry(Trimmed(mm));
    TakenFrom(Trimmed(mm), 4096, 0);
  }

  lemma SizedAfterBoot(mm: MemMap, hhdm: u64)
    requires Boots(mm) && TotalPages(Trimmed(mm)) > 0 && hhdm + HighestOf(mm) <= TWO64
    ensures BootedRun(mm, hhdm, [])
  {
    BootEstablishesInv(mm, hhdm);
    EmptyRun(Booted(mm, hhdm));
  }

  /** A page of its own in front of 65535 more: the tables do not fit the first entry, so page 0 is free and
      page 1, the first of the bitmap, is not. */
  lemma LeakyMachine(mm: MemMap, hhdm: u64)
    requires mm == [MemEntry(4096, 4096, true), MemEntry(8192, 65535 * 4096, true)] && hhdm + 65537 * 4096 <= TWO64
    ensures BootedRun(mm, hhdm, [])
    ensures var s := Booted(mm, hhdm); s.max == 65470 && !s.bits[0] && s.bits[1]
  {
    hide FirstFit, Take, TotalPages, LowestOf, HighestOf, FreeUp, UsablePage, BitmapSize, EntryMapSize;
    TwoEntries(mm);
    LeakySizes();
    TakenFrom(mm, 8192, 1);
    TakenFrom(Take(mm, 8192), 262144, 1);
    var e := MemEntry(8192 + 66 * 4096, 65469 * 4096, true);
    assert HasBitmap(mm) && HasEntryMap(mm) && Trimmed(mm) == [mm[0], e];
    TwoEntries(Trimmed(mm));
    FullBitmapSuffices(mm);
    SizedAfterBoot(mm, hhdm);
    BootedBitmap(mm, hhdm);
    FirstTwoPages(Trimmed(mm));
  }

  lemma LeakySizes()
    ensures BitmapSize(65536) == 8192 && EntryMapSize(65536) == 262144
  {
  }

  lemma FirstTwoPages(mm: MemMap)
    requires mm == [MemEntry(4096, 4096, true), MemEntry(8192 + 66 * 4096, 65469 * 4096, true)]
    ensures UsablePage(mm, 4096, 0) && !UsablePage(mm, 4096, 1)
  {
    assert PageIn(mm[0], 4096, 0);
  }

  /** So on the machine of eight pages fourteen calls, each page given back at once, leave the counter at
      2^64 - 1 with six pages free. */
  lemma SmallMachineCounterWraps(mm: MemMap, hhdm: u64) returns (ops: seq<Op>)
    requires mm == [MemEntry(4096, 8 * 4096, true)] && hhdm + 9 * 4096 <= TWO64
    ensures BootedRun(mm, hhdm, ops) && Cycles(ops, 7)
    ensures AfterRun(mm, hhdm, ops).available == TWO64 - 1 && CountClear(AfterRun(mm, hhdm, ops).bits) == 6
  {
    SmallMachine(mm, 8, hhdm);
    ops := CounterWrapsAfterBoot(mm, hhdm, 2);
  }

  /** And once slob_init has taken a page for its table there, kalloc gives that page away. */
  lemma SmallMachineGivesTableAway(mm: MemMap, hhdm: u64) returns (ops: seq<Op>)
    requires mm == [MemEntry(4096, 8 * 4096, true)] && hhdm + 9 * 4096 <= TWO64
    ensures BootedRun(mm, hhdm, []) && FirstFit(Trimmed(mm), 4096).Some? && 1 < Booted(mm, hhdm).max
    ensures var t := Shrunk(Booted(mm, hhdm), 4096);
            && Sized(t) && Exec(t, ops).Some?
            && Kalloc(Exec(t, ops).value, 1).1 == Taken(Trimmed(mm), 4096) + hhdm
  {
    SmallMachine(mm, 8, hhdm);
    ops := CarvedPageIsGranted(mm, hhdm, 4096, 2);
  }

  /** And on the machine with a page in front kalloc(1), kalloc(0) lose that page for good. */
  lemma LeakyMachineLeaks(mm: MemMap, hhdm: u64, ops: seq<Op>)
    requires mm == [MemEntry(4096, 4096, true), MemEntry(8192, 65535 * 4096, true)] && hhdm + 65537 * 4096 <= TWO64
    ensures BootedRun(mm, hhdm, [])
    ensures var t := Exec(Booted(mm, hhdm), [Alloc(1), Alloc(0)]);
            t.Some? && (Exec(t.value, ops).Some? ==>
                          |Exec(t.value, ops).value.bits| > 0 && Exec(t.value, ops).value.bits[0])
  {
    hide Booted, Exec;
    LeakyMachine(mm, hhdm);
    TwoAllocsNeverHalt(Booted(mm, hhdm));
    ZeroRequestLeaksAfterBoot(mm, hhdm, ops);
  }

  /** On a machine of 32 TiB a request for 2^32 pages is granted and recorded as none, so all of them are lost. */
  lemma HugeMachineLeaks(mm: MemMap, hhdm: u64, ops: seq<Op>) returns (p: nat)
    requires mm == [MemEntry(4096, 0x2_0000_0000 * 4096, true)] && hhdm + 0x2_0000_0001 * 4096 <= TWO64
    ensures BootedRun(mm, hhdm, [])
    ensures var s := Booted(mm, hhdm);
            && Kalloc(s, 4096 * TWO32).1 == AddrOf(s, p) && p + TWO32 <= s.max
            && var t := Exec(PageRuns.Step(s, Alloc(4096 * TWO32)).value, ops);
               t.Some? ==> p + TWO32 <= |t.value.bits| && forall i :: p <= i < p + TWO32 ==> t.value.bits[i]
  {
    hide Booted, Exec, Kalloc, RunScan, Trimmed, PageRuns.Step;
    assert BitmapSize(0x2_0000_0000) == 0x4000_0000 && EntryMapSize(0x2_0000_0000) == 0x8_0000_0000;
    OneEntryMachine(mm, 0x2_0000_0000, 0x84_0000, hhdm);
    BootEstablishesInv(mm, hhdm);
    var s := Booted(mm, hhdm);
    assert PagesFor(4096 * TWO32) == TWO32 && Wrap32(TWO32) == 0;
    RoomIsGranted(s, 4096 * TWO32, 0x84_0000);
    p := LongBlockLeaks(s, s.bits, 4096 * TWO32, ops);
  }

  lemma TwoAllocsNeverHalt(s: PageState)
    requires Sized(s)
    ensures Exec(s, [Alloc(1), Alloc(0)]).Some?
  {
    EmptyRun(s);
    ExecAppend(s, [], Alloc(1));
    ExecAppend(s, [Alloc(1)], Alloc(0));
    assert [] + [Alloc(1)] == [Alloc(1)] && [Alloc(1)] + [Alloc(0)] == [Alloc(1), Alloc(0)];
  }

  // ---------- Several CPUs ----------

  /** After boot, in every interleaving of any number of CPUs, whatever a kalloc of the log returned to its
      caller addresses pages of usable entries that miss the bitmap and the entry map. */
  lemma EveryPointerIsGood(mm: MemMap, hhdm: u64, n: nat, turns: seq<Turn>, k: nat)
    requires BootedRun(mm, hhdm, []) && Schedule(turns, n)
    requires var log := Run(Smp.Boot(Booted(mm, hhdm), n), turns).log;
             k < |log| && log[k].op.Alloc? && log[k].ptr != 0
    ensures var e := Run(Smp.Boot(Booted(mm, hhdm), n), turns).log[k];
            exists p: nat ::
              && e.ptr == LowestOf(mm) + hhdm + p * PAGE_SIZE
              && forall i :: p <= i < p + PagesFor(e.op.numBytes) ==> GoodPage(mm, i)
  {
    hide Booted, GoodPage, HasBitmap, HasEntryMap, Kalloc, RunScan, Sequential, Run, Exec, Calls;
    var s := Booted(mm, hhdm);
    var log := Run(Smp.Boot(s, n), turns).log;
    RunIsSequential(s, n, turns);
    LogPointer(s, log, k);
    var r := AllocationsAreUsableMemory(mm, hhdm, Calls(log[..k]), log[k].op.numBytes);
  }
}
