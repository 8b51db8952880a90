/** The bootloader's memory map and what the physical memory manager makes of it
    (src/mem.c:175-342), as values. */
module MemoryMap {
  import opened Machine
  import opened Pages

  datatype MemEntry = MemEntry(base: u64, length: u64, usable: bool) {
    function End(): int { base + length }
  }

  type MemMap = seq<MemEntry>

  predicate Aligned(e: MemEntry) {
    0 < e.base && e.base % PAGE_SIZE == 0 && e.length % PAGE_SIZE == 0 && e.End() < TWO64
  }

  predicate Apart(e: MemEntry, f: MemEntry) {
    Disjoint(e.base, e.length, f.base, f.length)
  }

  /** What the Memory Map Feature of the Limine Boot Protocol promises of usable entries: page aligned,
      pairwise disjoint; here also none at address 0, which src/mem.c:332 takes for "unset". */
  predicate WellFormed(mm: MemMap) {
    && (forall i :: 0 <= i < |mm| && mm[i].usable ==> Aligned(mm[i]))
    && (forall i, j :: 0 <= i < j < |mm| && mm[i].usable && mm[j].usable ==> Apart(mm[i], mm[j]))
  }

  // ---------- Carving metadata off the front of an entry ----------

  /** The first usable entry with room for size bytes. */
  ghost predicate IsFirstFit(mm: MemMap, size: u64, r: Option<nat>) {
    if r.Some? then
      && r.value < |mm| && mm[r.value].usable && size <= mm[r.value].length
      && forall i :: 0 <= i < r.value && mm[i].usable ==> mm[i].length < size
    else
      forall i :: 0 <= i < |mm| && mm[i].usable ==> mm[i].length < size
  }

  function FirstFitFrom(mm: MemMap, size: u64, i: nat): (r: Option<nat>)
    requires i <= |mm|
    requires forall j :: 0 <= j < i && mm[j].usable ==> mm[j].length < size
    ensures IsFirstFit(mm, size, r)
    decreases |mm| - i
  {
    if i == |mm| then None
    else if mm[i].usable && mm[i].length >= size then Some(i)
    else FirstFitFrom(mm, size, i + 1)
  }

  function FirstFit(mm: MemMap, size: u64): (r: Option<nat>)
    ensures IsFirstFit(mm, size, r)
  {
    FirstFitFrom(mm, size, 0)
  }

  lemma FirstFitIsUnique(mm: MemMap, size: u64, r: Option<nat>)
    requires IsFirstFit(mm, size, r)
    ensures r == FirstFit(mm, size)
  {
  }

  /** The map after size bytes are taken from the front of entry i. */
  function Carve(mm: MemMap, i: nat, size: u64): MemMap
    requires i < |mm| && size <= mm[i].length && mm[i].End() < TWO64
  {
    mm[i := MemEntry(mm[i].base + size, mm[i].length - size, mm[i].usable)]
  }

  /** A region of bytes lies apart from everything the map still calls usable. */
  predicate ApartFromUsable(mm: MemMap, base: int, size: int) {
    forall i :: 0 <= i < |mm| && mm[i].usable ==> Disjoint(base, size, mm[i].base, mm[i].length)
  }

  /** The map after size bytes are taken from its first fit, and where they were. */
  function Take(mm: MemMap, size: u64): (r: MemMap)
    requires WellFormed(mm) && size % PAGE_SIZE == 0 && FirstFit(mm, size).Some?
    ensures WellFormed(r)
  {
    CarveKeepsWellFormed(mm, FirstFit(mm, size).value, size);
    Carve(mm, FirstFit(mm, size).value, size)
  }

  function Taken(mm: MemMap, size: u64): u64
    requires FirstFit(mm, size).Some?
  {
    mm[FirstFit(mm, size).value].base
  }

  lemma CarveKeepsWellFormed(mm: MemMap, i: nat, size: u64)
    requires WellFormed(mm)
    requires i < |mm| && mm[i].usable && size <= mm[i].length && size % PAGE_SIZE == 0
    ensures mm[i].End() < TWO64 && WellFormed(Carve(mm, i, size))
  {
  }

  /** What is taken is the front of the first usable entry with room, and no other entry changes. */
  lemma TakenFrom(mm: MemMap, size: u64, k: nat)
    requires WellFormed(mm) && size % PAGE_SIZE == 0
    requires k < |mm| && IsFirstFit(mm, size, Some(k))
    ensures FirstFit(mm, size) == Some(k) && Taken(mm, size) == mm[k].base
    ensures Take(mm, size) == mm[k := MemEntry(mm[k].base + size, mm[k].length - size, mm[k].usable)]
  {
    FirstFitIsUnique(mm, size, Some(k));
  }

  /** What was taken lies apart from everything still usable, and so does everything that did before. */
  lemma TakenIsApart(mm: MemMap, size: u64)
    requires WellFormed(mm) && size % PAGE_SIZE == 0 && FirstFit(mm, size).Some?
    ensures ApartFromUsable(Take(mm, size), Taken(mm, size), size)
    ensures forall b, n :: ApartFromUsable(mm, b, n) ==> ApartFromUsable(Take(mm, size), b, n)
  {
  }

  // ---------- Pages ----------

  /** All pages of the usable entries. */
  function TotalPages(mm: MemMap): nat {
    if mm == [] then 0
    else
      var e := mm[|mm| - 1];
      TotalPages(mm[..|mm| - 1]) + if e.usable then e.length / PAGE_SIZE else 0
  }

  lemma {:induction false} TotalPagesAfterCarve(mm: MemMap, i: nat, size: u64)
    requires WellFormed(mm)
    requires i < |mm| && mm[i].usable && size <= mm[i].length && size % PAGE_SIZE == 0
    ensures TotalPages(Carve(mm, i, size)) == TotalPages(mm) - size / PAGE_SIZE
  {
    var last := |mm| - 1;
    assert Aligned(mm[i]);
    if i < last {
      TotalPagesAfterCarve(mm[..last], i, size);
      assert Carve(mm, i, size)[..last] == Carve(mm[..last], i, size);
    } else {
      assert Carve(mm, i, size)[..last] == mm[..last];
    }
  }

  lemma PagesAfterTake(mm: MemMap, size: u64)
    requires WellFormed(mm) && size % PAGE_SIZE == 0 && FirstFit(mm, size).Some?
    ensures TotalPages(Take(mm, size)) == TotalPages(mm) - size / PAGE_SIZE
  {
    TotalPagesAfterCarve(mm, FirstFit(mm, size).value, size);
  }

  /** Page i, counted from lowest, lies wholly inside e. */
  predicate PageIn(e: MemEntry, lowest: u64, i: int) {
    e.base <= lowest + i * PAGE_SIZE && lowest + (i + 1) * PAGE_SIZE <= e.End()
  }

  /** Page i lies wholly in some usable entry. */
  ghost predicate UsablePage(mm: MemMap, lowest: u64, i: int) {
    exists k :: 0 <= k < |mm| && mm[k].usable && PageIn(mm[k], lowest, i)
  }

  /** lowest and the page count bound the usable entries; an empty one may lie behind. */
  predicate Spans(mm: MemMap, lowest: u64, numPages: nat) {
    && lowest % PAGE_SIZE == 0
    && forall k :: 0 <= k < |mm| && mm[k].usable ==>
         lowest <= mm[k].base && (mm[k].length > 0 ==> mm[k].End() <= lowest + numPages * PAGE_SIZE)
  }

  /** That is, every usable page is below the count. */
  lemma SpansIff(mm: MemMap, lowest: u64, numPages: nat)
    requires WellFormed(mm) && lowest % PAGE_SIZE == 0
    requires forall k :: 0 <= k < |mm| && mm[k].usable ==> lowest <= mm[k].base
    ensures Spans(mm, lowest, numPages) <==> forall i: int :: UsablePage(mm, lowest, i) ==> i < numPages
  {
    if forall i: int :: UsablePage(mm, lowest, i) ==> i < numPages {
      forall k | 0 <= k < |mm| && mm[k].usable && mm[k].length > 0 ensures mm[k].End() <= lowest + numPages * PAGE_SIZE {
        var last := (mm[k].End() - lowest) / PAGE_SIZE - 1;
        assert Aligned(mm[k]);
        assert PageIn(mm[k], lowest, last);
        assert UsablePage(mm, lowest, last);
      }
    }
  }

  /** Taking moves a base up and no end, so the span still holds and every page left was there before. */
  lemma TakeKeepsSpan(mm: MemMap, size: u64, lowest: u64, numPages: nat)
    requires WellFormed(mm) && size % PAGE_SIZE == 0 && FirstFit(mm, size).Some?
    requires Spans(mm, lowest, numPages)
    ensures Spans(Take(mm, size), lowest, numPages)
  {
  }

  /** The size bytes a take of that size cuts off hold page i. */
  predicate TakesPage(mm: MemMap, size: u64, lowest: u64, i: int)
    requires FirstFit(mm, size).Some?
  {
    Taken(mm, size) <= lowest + i * PAGE_SIZE && lowest + (i + 1) * PAGE_SIZE <= Taken(mm, size) + size
  }

  /** Every usable page is either taken or left usable, and nothing else is. */
  lemma TakeSplitsPages(mm: MemMap, size: u64, lowest: u64, i: int)
    requires WellFormed(mm) && size % PAGE_SIZE == 0 && FirstFit(mm, size).Some? && lowest % PAGE_SIZE == 0
    ensures UsablePage(mm, lowest, i) <==> TakesPage(mm, size, lowest, i) || UsablePage(Take(mm, size), lowest, i)
  {
    hide PageIn, TakesPage;
    var f := FirstFit(mm, size).value;
    var t := Take(mm, size);
    CarveSplitsPages(mm, size, lowest, i);
    if UsablePage(mm, lowest, i) {
      var k :| 0 <= k < |mm| && mm[k].usable && PageIn(mm[k], lowest, i);
      assert k != f ==> t[k] == mm[k];
    }
    if UsablePage(t, lowest, i) {
      var k :| 0 <= k < |t| && t[k].usable && PageIn(t[k], lowest, i);
      assert k != f ==> t[k] == mm[k];
    }
  }

  lemma CarveSplitsPages(mm: MemMap, size: u64, lowest: u64, i: int)
    requires WellFormed(mm) && size % PAGE_SIZE == 0 && FirstFit(mm, size).Some? && lowest % PAGE_SIZE == 0
    ensures var f := FirstFit(mm, size).value;
            PageIn(mm[f], lowest, i) <==> TakesPage(mm, size, lowest, i) || PageIn(Take(mm, size)[f], lowest, i)
  {
    assert Aligned(mm[FirstFit(mm, size).value]);
  }

  function StartPage(e: MemEntry, lowest: u64): nat
    requires lowest <= e.base
  {
    (e.base - lowest) / PAGE_SIZE
  }

  /** The page range the code computes for an entry is the set of pages inside it. */
  lemma PageRange(e: MemEntry, lowest: u64, i: int)
    requires Aligned(e) && lowest <= e.base && lowest % PAGE_SIZE == 0
    ensures PageIn(e, lowest, i) <==> StartPage(e, lowest) <= i < StartPage(e, lowest) + e.length / PAGE_SIZE
  {
  }

  lemma EntryInBitmap(mm: MemMap, lowest: u64, numPages: nat, k: nat)
    requires WellFormed(mm) && Spans(mm, lowest, numPages) && k < |mm| && mm[k].usable
    ensures lowest <= mm[k].base
    ensures mm[k].length / PAGE_SIZE > 0 ==> StartPage(mm[k], lowest) + mm[k].length / PAGE_SIZE <= numPages
  {
  }

  /** _get_free_pages: the pages of every usable entry cleared, in the order of the map. */
  function FreeUp(bits: seq<bool>, mm: MemMap, lowest: u64): (r: seq<bool>)
    requires forall k :: 0 <= k < |mm| && mm[k].usable ==> lowest <= mm[k].base
    ensures |r| == |bits|
  {
    if mm == [] then bits
    else
      var last := |mm| - 1;
      var before := FreeUp(bits, mm[..last], lowest);
      if mm[last].usable then
        Mark(before, StartPage(mm[last], lowest), mm[last].length / PAGE_SIZE, false)
      else before
  }

  /** Which pages that clears. */
  lemma {:induction false} FreeUpClears(bits: seq<bool>, mm: MemMap, lowest: u64, i: nat)
    requires WellFormed(mm) && i < |bits| && lowest % PAGE_SIZE == 0
    requires forall k :: 0 <= k < |mm| && mm[k].usable ==> lowest <= mm[k].base
    ensures FreeUp(bits, mm, lowest)[i] <==> bits[i] && !UsablePage(mm, lowest, i)
  {
    if mm != [] {
      var last := |mm| - 1;
      var init := mm[..last];
      FreeUpClears(bits, init, lowest, i);
      assert UsablePage(mm, lowest, i) <==> UsablePage(init, lowest, i) || (mm[last].usable && PageIn(mm[last], lowest, i)) by {
        if UsablePage(mm, lowest, i) {
          var k :| 0 <= k < |mm| && mm[k].usable && PageIn(mm[k], lowest, i);
          assert k < last ==> init[k] == mm[k];
        }
        if UsablePage(init, lowest, i) {
          var k :| 0 <= k < last && init[k].usable && PageIn(init[k], lowest, i);
          assert mm[k] == init[k];
        }
      }
      if mm[last].usable {
        PageRange(mm[last], lowest, i);
      }
    }
  }

  /** How many: every page of every usable entry, since no two entries share one. */
  lemma {:induction false} FreeUpCounts(bits: seq<bool>, mm: MemMap, lowest: u64, numPages: nat)
    requires WellFormed(mm) && Spans(mm, lowest, numPages) && numPages <= |bits|
    requires forall i :: 0 <= i < |bits| ==> bits[i]
    ensures CountClear(FreeUp(bits, mm, lowest)) == TotalPages(mm)
  {
    hide WellFormed, StartPage, Mark;
    if mm == [] {
      AllSet(bits);
    } else {
      var last := |mm| - 1;
      var init := mm[..last];
      PrefixIsWellFormed(mm, lowest, numPages);
      FreeUpCounts(bits, init, lowest, numPages);
      var before := FreeUp(bits, init, lowest);
      if mm[last].usable {
        var s, n := StartPage(mm[last], lowest), mm[last].length / PAGE_SIZE;
        EntryInBitmap(mm, lowest, numPages, last);
        forall i | s <= i < s + n ensures before[i] {
          LaterEntryIsFresh(bits, mm, lowest, i);
        }
        if n > 0 {
          CountClearMark(before, s, n, false);
        } else {
          MarkNothing(before, s, false);
        }
      }
    }
  }

  lemma MarkNothing(bits: seq<bool>, lo: nat, v: bool)
    ensures Mark(bits, lo, 0, v) == bits
  {
  }

  lemma PrefixIsWellFormed(mm: MemMap, lowest: u64, numPages: nat)
    requires WellFormed(mm) && Spans(mm, lowest, numPages) && mm != []
    ensures WellFormed(mm[..|mm| - 1]) && Spans(mm[..|mm| - 1], lowest, numPages)
  {
  }

  lemma LaterEntryIsFresh(bits: seq<bool>, mm: MemMap, lowest: u64, i: nat)
    requires WellFormed(mm) && mm != [] && i < |bits| && bits[i] && lowest % PAGE_SIZE == 0
    requires forall k :: 0 <= k < |mm| && mm[k].usable ==> lowest <= mm[k].base
    requires var e := mm[|mm| - 1]; e.usable && StartPage(e, lowest) <= i < StartPage(e, lowest) + e.length / PAGE_SIZE
    ensures FreeUp(bits, mm[..|mm| - 1], lowest)[i]
  {
    var last := |mm| - 1;
    var init := mm[..last];
    FreeUpClears(bits, init, lowest, i);
    PageRange(mm[last], lowest, i);
    forall k | 0 <= k < last && init[k].usable ensures !PageIn(init[k], lowest, i) {
      assert Apart(mm[k], mm[last]);
    }
  }

  lemma {:induction false} AllSet(bits: seq<bool>)
    requires forall i :: 0 <= i < |bits| ==> bits[i]
    ensures CountClear(bits) == 0
  {
    if bits != [] {
      AllSet(bits[..|bits| - 1]);
    }
  }

  /** Both together: from a bitmap of ones, the clear bits are the usable pages, all of them. */
  lemma FreedBitmap(bits: seq<bool>, mm: MemMap, lowest: u64, numPages: nat)
    requires WellFormed(mm) && Spans(mm, lowest, numPages) && numPages <= |bits|
    requires forall i :: 0 <= i < |bits| ==> bits[i]
    ensures var freed := FreeUp(bits, mm, lowest);
            && (forall i :: 0 <= i < |bits| ==> (!freed[i] <==> UsablePage(mm, lowest, i)))
            && CountClear(freed) == TotalPages(mm) <= numPages
  {
    FreeUpCounts(bits, mm, lowest, numPages);
    TotalPagesBound(mm, lowest, numPages);
    forall i | 0 <= i < |bits| ensures !FreeUp(bits, mm, lowest)[i] <==> UsablePage(mm, lowest, i) {
      FreeUpClears(bits, mm, lowest, i);
    }
  }

  /** Disjoint entries cannot hold more pages than the span they lie in. */
  lemma TotalPagesBound(mm: MemMap, lowest: u64, numPages: nat)
    requires WellFormed(mm) && Spans(mm, lowest, numPages)
    ensures TotalPages(mm) <= numPages
  {
    var bits := seq(numPages, i => true);
    FreeUpCounts(bits, mm, lowest, numPages);
    CountClearBound(FreeUp(bits, mm, lowest));
  }

  lemma PrefixPagesBound(mm: MemMap, lowest: u64, numPages: nat, i: nat)
    requires WellFormed(mm) && Spans(mm, lowest, numPages) && i <= |mm|
    ensures TotalPages(mm[..i]) <= numPages
  {
    TotalPagesBound(mm[..i], lowest, numPages);
  }

  // ---------- The extent of the usable memory ----------

  /** lowest_address after _init_stats; 0 while no usable entry was seen. */
  function LowestOf(mm: MemMap): u64 {
    if mm == [] then 0
    else
      var e, low := mm[|mm| - 1], LowestOf(mm[..|mm| - 1]);
      if !e.usable then low else if low == 0 then e.base else if low < e.base then low else e.base
  }

  /** highest_address after _init_stats. */
  function HighestOf(mm: MemMap): int {
    if mm == [] then 0
    else
      var e, high := mm[|mm| - 1], HighestOf(mm[..|mm| - 1]);
      if e.usable && e.End() > high then e.End() else high
  }

  lemma {:induction false} ExtentAligned(mm: MemMap)
    requires WellFormed(mm)
    ensures 0 <= LowestOf(mm) <= HighestOf(mm) < TWO64
    ensures LowestOf(mm) % PAGE_SIZE == 0 && HighestOf(mm) % PAGE_SIZE == 0
  {
    hide WellFormed;
    if mm != [] {
      LastIsAligned(mm);
      ExtentAligned(mm[..|mm| - 1]);
    }
  }

  lemma LastIsAligned(mm: MemMap)
    requires WellFormed(mm) && mm != []
    ensures WellFormed(mm[..|mm| - 1]) && (mm[|mm| - 1].usable ==> Aligned(mm[|mm| - 1]))
  {
  }

  /** num_pages_in_map after _init_stats. */
  function PageCount(mm: MemMap): (n: nat)
    requires WellFormed(mm)
    ensures HighestOf(mm) == LowestOf(mm) + n * PAGE_SIZE && n <= TWO64 / PAGE_SIZE
  {
    ExtentAligned(mm);
    (HighestOf(mm) - LowestOf(mm)) / PAGE_SIZE
  }

  /** They are the least base and the greatest end, both reached by a usable entry. */
  lemma {:induction false} ExtentIsTight(mm: MemMap)
    requires WellFormed(mm)
    ensures forall k :: 0 <= k < |mm| && mm[k].usable ==> LowestOf(mm) <= mm[k].base && mm[k].End() <= HighestOf(mm)
    ensures if exists k :: 0 <= k < |mm| && mm[k].usable then
              && LowestOf(mm) > 0
              && (exists k :: 0 <= k < |mm| && mm[k].usable && mm[k].base == LowestOf(mm))
              && (exists k :: 0 <= k < |mm| && mm[k].usable && mm[k].End() == HighestOf(mm))
            else LowestOf(mm) == HighestOf(mm) == 0
  {
    if mm != [] {
      var last := |mm| - 1;
      var init := mm[..last];
      ExtentIsTight(init);
      assert forall k :: 0 <= k < last ==> init[k] == mm[k];
      assert mm[last].usable ==> Aligned(mm[last]);
    }
  }

  lemma ExtentSpans(mm: MemMap)
    requires WellFormed(mm)
    ensures Spans(mm, LowestOf(mm), PageCount(mm))
  {
    ExtentAligned(mm);
    ExtentIsTight(mm);
  }

  // ---------- The size of the bitmap ----------

  /** The bytes _create_page_bitmap asks for. */
  function BitmapSize(numPages: u64): (size: u64)
    ensures size % PAGE_SIZE == 0
  {
    AlignUpPage(numPages / 8)
  }

  /** Rounding down to bytes before rounding up to pages: the bitmap has a bit for every page of the
      map except when the count leaves a remainder of 1 to 7 modulo 32768. */
  lemma BitmapCovers(numPages: u64)
    requires numPages <= TWO64 / PAGE_SIZE
    ensures numPages <= 8 * BitmapSize(numPages) <==> !(1 <= numPages % 32768 <= 7)
  {
  }

  /** The bytes kmem_init asks for to hold one 32-bit entry per page. */
  function EntryMapSize(numPages: u64): (size: u64)
    ensures size % PAGE_SIZE == 0
  {
    AlignUpPage(Wrap64(4 * numPages))
  }

  lemma EntryMapCovers(numPages: u64)
    requires numPages <= TWO64 / PAGE_SIZE
    ensures numPages <= EntryMapSize(numPages) / 4 && EntryMapSize(numPages) % PAGE_SIZE == 0
    ensures AlignUpPage(EntryMapSize(numPages)) == EntryMapSize(numPages)
  {
  }

  /** Both are rounded up to the fewest pages: one byte for every eight whole pages of the map, and four
      for every page. */
  lemma TablesAreTight(numPages: u64)
    requires numPages <= TWO64 / PAGE_SIZE
    ensures IsPageCount(numPages / 8, BitmapSize(numPages) / PAGE_SIZE)
    ensures IsPageCount(4 * numPages, EntryMapSize(numPages) / PAGE_SIZE)
  {
    DivRoundUpIsCeiling(numPages / 8);
    DivRoundUpIsCeiling(Wrap64(4 * numPages));
  }

  /** The entry map is the larger of the two, so a map without room for the bitmap has none for it either:
      the halt in memmap_alloc comes before anything is done through the missing pointer. */
  lemma NoBitmapNoEntryMap(mm: MemMap, numPages: u64)
    requires numPages <= TWO64 / PAGE_SIZE
    requires FirstFit(mm, BitmapSize(numPages)) == None
    ensures FirstFit(mm, EntryMapSize(numPages)) == None
  {
    assert BitmapSize(numPages) <= EntryMapSize(numPages);
  }

  // ---------- The bitmap that is too small ----------

  /** When the page count leaves a remainder of 1 to 7 and the highest entry is larger than both tables,
      the last page of the map is still usable when _get_free_pages comes to it, and has no bit. */
  lemma BitmapFallsShort(mm: MemMap, k: nat)
    requires WellFormed(mm) && k < |mm| && mm[k].usable && mm[k].End() == HighestOf(mm)
    requires 1 <= PageCount(mm) % 32768 <= 7
    requires BitmapSize(PageCount(mm)) + EntryMapSize(PageCount(mm)) < mm[k].length
    ensures var n := PageCount(mm);
            && FirstFit(mm, BitmapSize(n)).Some?
            && var mm1 := Take(mm, BitmapSize(n));
               && FirstFit(mm1, EntryMapSize(n)).Some?
               && 8 * BitmapSize(n) <= n - 1 && UsablePage(Take(mm1, EntryMapSize(n)), LowestOf(mm), n - 1)
  {
    hide BitmapSize, EntryMapSize, Take, LowestOf, HighestOf, PageIn;
    var n := PageCount(mm);
    var b, e := BitmapSize(n), EntryMapSize(n);
    ExtentAligned(mm);
    TakeLeavesEnd(mm, b, k);
    TakeLeavesEnd(Take(mm, b), e, k);
    BitmapIsShortByAPage(n);
    LastPageIn(Take(Take(mm, b), e)[k], LowestOf(mm), n);
  }

  lemma LastPageIn(e: MemEntry, lowest: u64, n: nat)
    requires Aligned(e) && 0 < e.length && lowest % PAGE_SIZE == 0 && e.End() == lowest + n * PAGE_SIZE
    ensures PageIn(e, lowest, n - 1)
  {
  }

  lemma BitmapIsShortByAPage(n: nat)
    requires n <= TWO64 / PAGE_SIZE && 1 <= n % 32768 <= 7
    ensures 8 * BitmapSize(n) <= n - 1
  {
  }

  /** An entry larger than what is taken keeps its end and most of its length. */
  lemma TakeLeavesEnd(mm: MemMap, size: u64, k: nat)
    requires WellFormed(mm) && size % PAGE_SIZE == 0
    requires k < |mm| && mm[k].usable && size < mm[k].length
    ensures FirstFit(mm, size).Some?
    ensures |Take(mm, size)| == |mm|
    ensures var t := Take(mm, size)[k]; t.usable && t.End() == mm[k].End() && t.length >= mm[k].length - size
  {
  }

  /** The least such map with a page for the bitmap, one entry of 32769 pages: the bitmap has 32768 bits,
      and _get_free_pages needs bit 32768. */
  lemma SmallestShortMap(mm: MemMap)
    requires mm == [MemEntry(4096, 32769 * 4096, true)]
    ensures WellFormed(mm) && PageCount(mm) == 32769 && 8 * BitmapSize(32769) == 32768
    ensures FirstFit(mm, BitmapSize(32769)).Some?
    ensures var mm1 := Take(mm, BitmapSize(32769));
            FirstFit(mm1, EntryMapSize(32769)).Some? && UsablePage(Take(mm1, EntryMapSize(32769)), LowestOf(mm), 32768)
  {
    hide Take, FirstFit, UsablePage;
    OneEntry(mm);
    assert BitmapSize(32769) == 4096 && EntryMapSize(32769) == 33 * 4096;
    BitmapFallsShort(mm, 0);
  }

  lemma TwoEntries(mm: MemMap)
    requires |mm| == 2 && mm[0].usable && mm[1].usable && Aligned(mm[0]) && Aligned(mm[1]) && mm[0].End() <= mm[1].base
    ensures WellFormed(mm) && LowestOf(mm) == mm[0].base && HighestOf(mm) == mm[1].End()
    ensures PageCount(mm) == (mm[1].End() - mm[0].base) / PAGE_SIZE
    ensures TotalPages(mm) == mm[0].length / PAGE_SIZE + mm[1].length / PAGE_SIZE
  {
    OneEntry(mm[..1]);
  }

  lemma OneEntry(mm: MemMap)
    requires |mm| == 1 && mm[0].usable && Aligned(mm[0])
    ensures WellFormed(mm) && LowestOf(mm) == mm[0].base && HighestOf(mm) == mm[0].End()
    ensures PageCount(mm) == mm[0].length / PAGE_SIZE && TotalPages(mm) == mm[0].length / PAGE_SIZE
  {
    assert mm[..0] == [];
    assert LowestOf(mm[..0]) == 0 && HighestOf(mm[..0]) == 0;
  }
}
