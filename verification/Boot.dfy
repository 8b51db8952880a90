/** What kmem_init (src/mem.c:458-477) leaves behind, as a function of the memory map, and what that
    means for everything kalloc hands out afterwards. */
module Boot {
  import opened Machine
  import opened Pages
  import opened PageRuns
  import opened MemoryMap

  // ---------- The boot pipeline as a function of the map ----------

  /** There is room for the bitmap. */
  predicate HasBitmap(mm: MemMap) {
    WellFormed(mm) && FirstFit(mm, BitmapSize(PageCount(mm))).Some?
  }

  function AfterBitmap(mm: MemMap): (r: MemMap)
    requires HasBitmap(mm)
    ensures WellFormed(r)
  {
    Take(mm, BitmapSize(PageCount(mm)))
  }

  function BitmapBase(mm: MemMap): u64
    requires HasBitmap(mm)
  {
    Taken(mm, BitmapSize(PageCount(mm)))
  }

  /** There is room for the entry map as well. */
  predicate HasEntryMap(mm: MemMap)
    requires HasBitmap(mm)
  {
    FirstFit(AfterBitmap(mm), EntryMapSize(PageCount(mm))).Some?
  }

  /** The memory map after both carve-outs. */
  function Trimmed(mm: MemMap): (r: MemMap)
    requires HasBitmap(mm) && HasEntryMap(mm)
    ensures WellFormed(r)
  {
    Take(AfterBitmap(mm), EntryMapSize(PageCount(mm)))
  }

  function EntryMapBase(mm: MemMap): u64
    requires HasBitmap(mm) && HasEntryMap(mm)
  {
    Taken(AfterBitmap(mm), EntryMapSize(PageCount(mm)))
  }

  /** The bitmap has a bit for every page that is still usable when _get_free_pages comes to it. */
  predicate BitmapSuffices(mm: MemMap)
    requires HasBitmap(mm) && HasEntryMap(mm)
  {
    Spans(Trimmed(mm), LowestOf(mm), 8 * BitmapSize(PageCount(mm)))
  }

  /** kmem_init comes to its end and stays inside its tables. */
  predicate Boots(mm: MemMap) {
    HasBitmap(mm) && HasEntryMap(mm) && BitmapSuffices(mm)
  }

  lemma TrimmedSpan(mm: MemMap)
    requires HasBitmap(mm) && HasEntryMap(mm)
    ensures Spans(Trimmed(mm), LowestOf(mm), PageCount(mm))
  {
    ExtentSpans(mm);
    TakeKeepsSpan(mm, BitmapSize(PageCount(mm)), LowestOf(mm), PageCount(mm));
    TakeKeepsSpan(AfterBitmap(mm), EntryMapSize(PageCount(mm)), LowestOf(mm), PageCount(mm));
  }

  /** The allocator's state when kmem_init returns. */
  function Booted(mm: MemMap, hhdm: u64): PageState
    requires HasBitmap(mm) && HasEntryMap(mm)
  {
    TrimmedSpan(mm);
    TotalPagesBound(Trimmed(mm), LowestOf(mm), PageCount(mm));
    var total := TotalPages(Trimmed(mm));
    PageState(FreeUp(seq(8 * BitmapSize(PageCount(mm)), i => true), Trimmed(mm), LowestOf(mm)),
              seq(EntryMapSize(PageCount(mm)) / 4, i => 0),
              0, total, total, LowestOf(mm), hhdm)
  }

  // ---------- When the bitmap suffices ----------

  /** What both tables leave of entry k of the bootloader's map. */
  function Left(mm: MemMap, k: nat): int
    requires HasBitmap(mm) && HasEntryMap(mm) && k < |mm|
  {
    mm[k].length
    - (if FirstFit(mm, BitmapSize(PageCount(mm))) == Some(k) then BitmapSize(PageCount(mm)) else 0)
    - (if FirstFit(AfterBitmap(mm), EntryMapSize(PageCount(mm))) == Some(k) then EntryMapSize(PageCount(mm)) else 0)
  }

  lemma TrimmedEntry(mm: MemMap, k: nat)
    requires HasBitmap(mm) && HasEntryMap(mm) && k < |mm|
    ensures |Trimmed(mm)| == |mm| && Trimmed(mm)[k].usable == mm[k].usable
    ensures Trimmed(mm)[k].length == Left(mm, k) && Trimmed(mm)[k].End() == mm[k].End()
  {
  }

  /** Entry k of the bootloader's map still has a page when both tables are placed, and it ends past the bitmap. */
  predicate RunsPastBitmap(mm: MemMap, k: nat)
    requires HasBitmap(mm) && HasEntryMap(mm) && k < |mm|
  {
    mm[k].usable && Left(mm, k) > 0 && mm[k].End() > LowestOf(mm) + 8 * BitmapSize(PageCount(mm)) * PAGE_SIZE
  }

  /** The exact condition for _get_free_pages to clear a bit the bitmap does not have: some usable entry of
      the bootloader's map outlasts the tables and ends past the bitmap.  It takes a page count of 1 to 7
      modulo 32768. */
  lemma BitmapFallsShortIff(mm: MemMap)
    requires HasBitmap(mm) && HasEntryMap(mm)
    ensures (exists i: int :: 8 * BitmapSize(PageCount(mm)) <= i && UsablePage(Trimmed(mm), LowestOf(mm), i))
            <==> exists k :: 0 <= k < |mm| && RunsPastBitmap(mm, k)
    ensures BitmapSuffices(mm) <==> !exists k :: 0 <= k < |mm| && RunsPastBitmap(mm, k)
    ensures !BitmapSuffices(mm) ==> 1 <= PageCount(mm) % 32768 <= 7
  {
    hide BitmapSize, EntryMapSize, Trimmed, UsablePage, LowestOf, HighestOf, RunsPastBitmap, Spans;
    SufficesIff(mm);
    FullBitmapSuffices(mm);
    TrimmedSpan(mm);
    TrimmedStarts(mm);
    SpansIff(Trimmed(mm), LowestOf(mm), 8 * BitmapSize(PageCount(mm)));
  }

  lemma SufficesIff(mm: MemMap)
    requires HasBitmap(mm) && HasEntryMap(mm)
    ensures BitmapSuffices(mm) <==> !exists k :: 0 <= k < |mm| && RunsPastBitmap(mm, k)
  {
    hide BitmapSize, EntryMapSize, FirstFit, Trimmed, LowestOf, HighestOf, Left;
    TrimmedSpan(mm);
    KeepsLength(mm);
    forall k | 0 <= k < |mm|
      ensures Trimmed(mm)[k].usable == mm[k].usable && Trimmed(mm)[k].length == Left(mm, k)
      ensures Trimmed(mm)[k].End() == mm[k].End()
    {
      TrimmedEntry(mm, k);
    }
    if !BitmapSuffices(mm) {
      var k :| 0 <= k < |mm| && Trimmed(mm)[k].usable && Trimmed(mm)[k].length > 0
               && Trimmed(mm)[k].End() > LowestOf(mm) + 8 * BitmapSize(PageCount(mm)) * PAGE_SIZE;
      assert RunsPastBitmap(mm, k);
    }
  }

  lemma FullBitmapSuffices(mm: MemMap)
    requires HasBitmap(mm) && HasEntryMap(mm)
    ensures !(1 <= PageCount(mm) % 32768 <= 7) ==> BitmapSuffices(mm)
  {
    hide BitmapSize, EntryMapSize, Trimmed, LowestOf, HighestOf;
    TrimmedSpan(mm);
    BitmapCovers(PageCount(mm));
  }

  lemma TrimmedStarts(mm: MemMap)
    requires HasBitmap(mm) && HasEntryMap(mm)
    ensures LowestOf(mm) % PAGE_SIZE == 0
    ensures forall k :: 0 <= k < |Trimmed(mm)| && Trimmed(mm)[k].usable ==> LowestOf(mm) <= Trimmed(mm)[k].base
  {
    TrimmedSpan(mm);
  }

  lemma KeepsLength(mm: MemMap)
    requires HasBitmap(mm) && HasEntryMap(mm)
    ensures |Trimmed(mm)| == |mm|
  {
  }

  // ---------- What it means ----------

  lemma TrimmedPages(mm: MemMap)
    requires HasBitmap(mm) && HasEntryMap(mm)
    ensures TotalPages(Trimmed(mm))
            == TotalPages(mm) - BitmapSize(PageCount(mm)) / PAGE_SIZE - EntryMapSize(PageCount(mm)) / PAGE_SIZE
  {
    PagesAfterTake(mm, BitmapSize(PageCount(mm)));
    PagesAfterTake(AfterBitmap(mm), EntryMapSize(PageCount(mm)));
  }

  /** At the end of kmem_init a bit is clear exactly for the pages of the trimmed map; there are as
      many of them as num_pages_available and max_pages_available say. */
  lemma BootedBitmap(mm: MemMap, hhdm: u64)
    requires Boots(mm)
    ensures var s := Booted(mm, hhdm);
            && (forall i :: 0 <= i < |s.bits| ==> (!s.bits[i] <==> UsablePage(Trimmed(mm), s.lowest, i)))
            && CountClear(s.bits) == s.available == s.max == TotalPages(Trimmed(mm))
  {
    var size := 8 * BitmapSize(PageCount(mm));
    FreedBitmap(seq(size, i => true), Trimmed(mm), LowestOf(mm), size);
  }

  /** With a page left over, the allocator's invariant holds; what is reserved is what is not free. */
  lemma BootEstablishesInv(mm: MemMap, hhdm: u64)
    requires Boots(mm)
    ensures var s := Booted(mm, hhdm); Inv(s, s.bits) <==> s.max > 0
  {
    var s, n := Booted(mm, hhdm), PageCount(mm);
    TrimmedSpan(mm);
    TotalPagesBound(Trimmed(mm), s.lowest, n);
    TotalPagesBound(Trimmed(mm), s.lowest, 8 * BitmapSize(n));
    EntryMapCovers(n);
    assert forall i :: !Covered(s.entries, i);
  }

  /** The metadata lies in no usable entry of the trimmed map, and the two tables miss each other. */
  lemma MetadataApart(mm: MemMap)
    requires HasBitmap(mm) && HasEntryMap(mm)
    ensures ApartFromUsable(Trimmed(mm), BitmapBase(mm), BitmapSize(PageCount(mm)))
    ensures ApartFromUsable(Trimmed(mm), EntryMapBase(mm), EntryMapSize(PageCount(mm)))
    ensures Disjoint(BitmapBase(mm), BitmapSize(PageCount(mm)), EntryMapBase(mm), EntryMapSize(PageCount(mm)))
  {
    hide BitmapSize, EntryMapSize, WellFormed;
    TakenIsApart(mm, BitmapSize(PageCount(mm)));
    TakenIsApart(AfterBitmap(mm), EntryMapSize(PageCount(mm)));
  }

  /** Entry k of the bootloader's map is the first usable one that has size bytes more than what was cut
      off entry b. */
  predicate FirstWithRoom(mm: MemMap, k: nat, size: int, b: nat, cut: int) {
    && k < |mm| && mm[k].usable && mm[k].length - (if k == b then cut else 0) >= size
    && forall j :: 0 <= j < k && mm[j].usable ==> mm[j].length - (if j == b then cut else 0) < size
  }

  /** Where the tables are: the bitmap at the front of the first entry with room for it, the entry map at
      the front of what is left of the first entry that then has room for it. */
  lemma TablesAtFirstFit(mm: MemMap) returns (b: nat, e: nat)
    requires HasBitmap(mm) && HasEntryMap(mm)
    ensures var size, size' := BitmapSize(PageCount(mm)), EntryMapSize(PageCount(mm));
            && FirstWithRoom(mm, b, size, b, 0) && BitmapBase(mm) == mm[b].base
            && FirstWithRoom(mm, e, size', b, size)
            && EntryMapBase(mm) == mm[e].base + if e == b then size else 0
  {
    hide BitmapSize, EntryMapSize;
    b := FirstFit(mm, BitmapSize(PageCount(mm))).value;
    e := FirstFit(AfterBitmap(mm), EntryMapSize(PageCount(mm))).value;
    TakenFrom(mm, BitmapSize(PageCount(mm)), b);
    TakenFrom(AfterBitmap(mm), EntryMapSize(PageCount(mm)), e);
    assert forall j :: 0 <= j < |mm| ==>
                 && AfterBitmap(mm)[j].usable == mm[j].usable
                 && AfterBitmap(mm)[j].length == mm[j].length - if j == b then BitmapSize(PageCount(mm)) else 0;
  }

  /** Carving only ever shrinks an entry. */
  lemma TrimmedWithin(mm: MemMap, lowest: u64, i: int)
    requires HasBitmap(mm) && HasEntryMap(mm)
    requires UsablePage(Trimmed(mm), lowest, i)
    ensures UsablePage(mm, lowest, i)
  {
  }

  /** The bytes [base, base + size) do not meet page i. */
  predicate PageMisses(lowest: u64, i: int, base: int, size: int) {
    Disjoint(base, size, lowest + i * PAGE_SIZE, PAGE_SIZE)
  }

  /** Page i lies in a usable entry of the bootloader's map and misses both metadata tables. */
  ghost predicate GoodPage(mm: MemMap, i: int)
    requires HasBitmap(mm) && HasEntryMap(mm)
  {
    && UsablePage(mm, LowestOf(mm), i)
    && PageMisses(LowestOf(mm), i, BitmapBase(mm), BitmapSize(PageCount(mm)))
    && PageMisses(LowestOf(mm), i, EntryMapBase(mm), EntryMapSize(PageCount(mm)))
  }

  lemma BootedFreePage(mm: MemMap, hhdm: u64, i: nat)
    requires Boots(mm)
    requires i < |Booted(mm, hhdm).bits| && !Booted(mm, hhdm).bits[i]
    ensures GoodPage(mm, i)
  {
    BootedBitmap(mm, hhdm);
    MetadataApart(mm);
    TrimmedWithin(mm, LowestOf(mm), i);
    var k :| 0 <= k < |Trimmed(mm)| && Trimmed(mm)[k].usable && PageIn(Trimmed(mm)[k], LowestOf(mm), i);
  }

  /** A boot that leaves a page over, under a direct map that does not wrap, then a run. */
  ghost predicate BootedRun(mm: MemMap, hhdm: u64, ops: seq<Op>) {
    && Boots(mm) && hhdm + HighestOf(mm) <= TWO64
    && Sized(Booted(mm, hhdm))
    && Exec(Booted(mm, hhdm), ops).Some?
  }

  function AfterRun(mm: MemMap, hhdm: u64, ops: seq<Op>): (t: PageState)
    requires BootedRun(mm, hhdm, ops)
    ensures Sized(t)
  {
    Exec(Booted(mm, hhdm), ops).value
  }

  /** Boot, then any run of kalloc and kfree, then one more kalloc of any size: what it returns is 0
      or the higher-half address of pages that all lie in usable entries of the bootloader's map and
      miss the bitmap and the entry map. */
  lemma AllocationsAreUsableMemory(mm: MemMap, hhdm: u64, ops: seq<Op>, numBytes: u64) returns (r: Option<nat>)
    requires BootedRun(mm, hhdm, ops)
    ensures r.None? ==> Kalloc(AfterRun(mm, hhdm, ops), numBytes).1 == 0
    ensures r.Some? ==>
              && Kalloc(AfterRun(mm, hhdm, ops), numBytes).1 == LowestOf(mm) + hhdm + r.value * PAGE_SIZE != 0
              && forall i :: r.value <= i < r.value + PagesFor(numBytes) ==> GoodPage(mm, i)
  {
    var s := Booted(mm, hhdm);
    BootEstablishesInv(mm, hhdm);
    BootedIsDirectMapped(mm, hhdm);
    r := RunThenKalloc(s, s.bits, ops, numBytes);
    if r.Some? {
      forall i | r.value <= i < r.value + PagesFor(numBytes) ensures GoodPage(mm, i) {
        BootedFreePage(mm, hhdm, i);
      }
    }
  }

  lemma {:induction false} PagesNeedAnEntry(mm: MemMap)
    requires TotalPages(mm) > 0
    ensures exists k :: 0 <= k < |mm| && mm[k].usable
  {
    var last := |mm| - 1;
    if !mm[last].usable {
      PagesNeedAnEntry(mm[..last]);
      var k :| 0 <= k < last && mm[..last][k].usable;
      assert mm[k].usable;
    }
  }

  lemma BootedIsDirectMapped(mm: MemMap, hhdm: u64)
    requires HasBitmap(mm) && HasEntryMap(mm)
    requires Booted(mm, hhdm).max > 0 && hhdm + HighestOf(mm) <= TWO64
    ensures DirectMapped(Booted(mm, hhdm))
  {
    TrimmedSpan(mm);
    TotalPagesBound(Trimmed(mm), LowestOf(mm), PageCount(mm));
    ExtentIsTight(mm);
    PagesNeedAnEntry(Trimmed(mm));
    var k :| 0 <= k < |mm| && Trimmed(mm)[k].usable;
    assert mm[k].usable;
  }
}
