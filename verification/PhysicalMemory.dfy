/** The physical memory manager of src/mem.c: the boot pipeline that turns the memory map into a
    packed bitmap and an entry map, and kalloc / kfree on them. */
module PhysicalMemory {
  import opened Machine
  import opened Bitmap
  import opened NextFit
  import opened Pages
  import opened MemoryMap
  import opened Boot

  class Pmm {
    const memmap: array<MemEntry>  // memmap->entries, changed in place
    const hhdm: u64                // vmm_higher_half_offset
    var lowest: u64                // lowest_address
    var highest: u64               // highest_address
    var numPagesInMap: u64
    var maxPages: u64              // max_pages_available
    var bitmap: array<bv8>         // page_bitmap; no bytes while the pointer is NULL
    var bitmapBase: u64            // the physical address of its first byte
    var entryMap: array<u32>       // entry_map
    var entryMapBase: u64
    var cursor: u64                // allocation_cursor
    var available: u64             // num_pages_available
    var locked: bool               // lock

    constructor (memmap: array<MemEntry>, hhdm: u64)
      ensures this.memmap == memmap && this.hhdm == hhdm
      ensures Unused() && Separate() && fresh(bitmap) && fresh(entryMap)
    {
      this.memmap, this.hhdm := memmap, hhdm;
      lowest, highest, numPagesInMap, maxPages := 0, 0, 0, 0;
      bitmap, bitmapBase := new bv8[0], 0;
      entryMap, entryMapBase := new u32[0], 0;
      cursor, available, locked := 0, 0, false;
    }

    /** The globals before kmem_init. */
    ghost predicate Unused()
      reads this
    {
      && lowest == highest == maxPages == cursor == available == 0
      && !locked && bitmap.Length == 0 && entryMap.Length == 0
    }

    /** The three tables are different objects. */
    ghost predicate Separate()
      reads this
    {
      && memmap as object != bitmap as object && memmap as object != entryMap as object
      && bitmap as object != entryMap as object
    }

    /** The allocator's tables as a value. */
    ghost function State(): PageState
      reads this, bitmap, entryMap
    {
      PageState(Bits(bitmap[..]), entryMap[..], cursor, available, maxPages, lowest, hhdm)
    }

    // ---------- Boot ----------

    /** _init_stats */
    method InitStats()
      requires WellFormed(memmap[..]) && lowest == highest == maxPages == 0
      modifies this`lowest, this`highest, this`maxPages, this`numPagesInMap
      ensures lowest == LowestOf(memmap[..]) && highest == HighestOf(memmap[..])
      ensures numPagesInMap == PageCount(memmap[..])
      ensures maxPages == TotalPages(memmap[..])
    {
      ghost var mm := memmap[..];
      ExtentSpans(mm);
      for i := 0 to memmap.Length
        invariant lowest == LowestOf(mm[..i]) && highest == HighestOf(mm[..i])
        invariant maxPages == TotalPages(mm[..i])
      {
        var entry := memmap[i];
        assert mm[..i + 1][..i] == mm[..i] && mm[..i + 1][i] == entry;
        PrefixPagesBound(mm, LowestOf(mm), PageCount(mm), i + 1);
        if entry.usable {
          assert Aligned(entry);
          maxPages := Wrap64(maxPages + entry.length / PAGE_SIZE);
          highest := if highest > entry.base + entry.length then highest else entry.base + entry.length;
          if lowest == 0 {
            lowest := entry.base;
          } else {
            lowest := if lowest < entry.base then lowest else entry.base;
          }
        }
      }
      assert mm[..memmap.Length] == mm;
      numPagesInMap := (highest - lowest) / PAGE_SIZE;
    }

    /** The search loop of _create_page_bitmap and memmap_alloc: take size bytes off the front of the
        first usable entry that has them. */
    method TakeFirstFit(size: u64) returns (base: Option<u64>)
      requires WellFormed(memmap[..]) && size % PAGE_SIZE == 0
      requires maxPages == TotalPages(memmap[..])
      modifies memmap, this`maxPages
      ensures maxPages == TotalPages(memmap[..])
      ensures var mm := old(memmap[..]);
              var fit := FirstFit(mm, size);
              if fit.Some? then
                && base == Some(Taken(mm, size))
                && memmap[..] == Take(mm, size)
              else base == None && memmap[..] == mm
    {
      ghost var mm := memmap[..];
      for i := 0 to memmap.Length
        invariant memmap[..] == mm && maxPages == old(maxPages)
        invariant forall j :: 0 <= j < i && mm[j].usable ==> mm[j].length < size
      {
        var entry := memmap[i];
        if entry.usable && entry.length >= size {
          FirstFitIsUnique(mm, size, Some(i));
          PagesAfterTake(mm, size);
          assert Aligned(mm[i]);
          base := Some(entry.base);
          memmap[i] := MemEntry(entry.base + size, entry.length - size, entry.usable);
          maxPages := Wrap64(maxPages - size / PAGE_SIZE);
          return;
        }
      }
      FirstFitIsUnique(mm, size, None);
      base := None;
    }

    /** _create_page_bitmap: without room anywhere the bitmap pointer stays as it is. */
    method CreatePageBitmap()
      requires WellFormed(memmap[..])
      requires numPagesInMap <= TWO64 / PAGE_SIZE && maxPages == TotalPages(memmap[..])
      modifies memmap, this`maxPages, this`bitmap, this`bitmapBase
      ensures maxPages == TotalPages(memmap[..])
      ensures var mm, size := old(memmap[..]), BitmapSize(numPagesInMap);
              var fit := FirstFit(mm, size);
              if fit.Some? then
                && bitmapBase == Taken(mm, size)
                && memmap[..] == Take(mm, size)
                && fresh(bitmap) && bitmap.Length == size
                && forall i :: 0 <= i < 8 * size ==> Bits(bitmap[..])[i]
              else
                && memmap[..] == mm
                && bitmap == old(bitmap) && bitmapBase == old(bitmapBase)
    {
      BitmapCovers(numPagesInMap);
      var size := AlignUpPage(numPagesInMap / 8);
      var base := TakeFirstFit(size);
      if base.Some? {
        bitmapBase := base.value;
        bitmap := new bv8[size](_ => 0xFF);
        forall i | 0 <= i < 8 * size ensures Bits(bitmap[..])[i] {
          MaskValue(i);
        }
      }
    }

    /** memmap_alloc: the physical address of length bytes rounded up to pages, or None for the halt.
        The zeroing of the memory is done by the caller, who owns its representation. */
    method MemmapAlloc(length: u64) returns (base: Option<u64>)
      requires WellFormed(memmap[..]) && maxPages == TotalPages(memmap[..])
      modifies memmap, this`maxPages
      ensures maxPages == TotalPages(memmap[..])
      ensures var mm, size := old(memmap[..]), AlignUpPage(length);
              var fit := FirstFit(mm, size);
              if fit.Some? then
                && base == Some(Taken(mm, size))
                && memmap[..] == Take(mm, size)
              else base == None && memmap[..] == mm
    {
      var size := AlignUpPage(length);
      base := TakeFirstFit(size);
    }

    /** _get_free_pages */
    method GetFreePages(ghost numPages: nat)
      requires WellFormed(memmap[..]) && Separate() && available == 0
      requires Spans(memmap[..], lowest, numPages) && numPages <= 8 * bitmap.Length && numPages < TWO64
      modifies bitmap, this`available
      ensures memmap[..] == old(memmap[..])
      ensures Bits(bitmap[..]) == FreeUp(old(Bits(bitmap[..])), memmap[..], lowest)
      ensures available == TotalPages(memmap[..])
    {
      ghost var mm, bits := memmap[..], Bits(bitmap[..]);
      for i := 0 to memmap.Length
        invariant memmap[..] == mm
        invariant Bits(bitmap[..]) == FreeUp(bits, mm[..i], lowest)
        invariant available == TotalPages(mm[..i])
      {
        var entry := memmap[i];
        assert mm[..i + 1][..i] == mm[..i] && mm[..i + 1][i] == entry;
        PrefixPagesBound(mm, lowest, numPages, i + 1);
        if entry.usable {
          EntryInBitmap(mm, lowest, numPages, i);
          var startBit := (entry.base - lowest) / PAGE_SIZE;
          var pagesFree := entry.length / PAGE_SIZE;
          FreeEntry(startBit, pagesFree);
        }
      }
      assert mm[..memmap.Length] == mm;
    }

    /** The inner loop of _get_free_pages. */
    method FreeEntry(startBit: nat, pagesFree: nat)
      requires (pagesFree > 0 ==> startBit + pagesFree <= 8 * bitmap.Length) && available + pagesFree < TWO64
      modifies bitmap, this`available
      ensures Bits(bitmap[..]) == Mark(old(Bits(bitmap[..])), startBit, pagesFree, false)
      ensures available == old(available) + pagesFree
    {
      for i := startBit to startBit + pagesFree
        invariant Bits(bitmap[..]) == Mark(old(Bits(bitmap[..])), startBit, i - startBit, false)
        invariant available == old(available) + i - startBit
      {
        BitmapOff(bitmap, i);
        available := Wrap64(available + 1);
      }
    }

    /** kmem_init up to the call of _get_free_pages: both tables placed, every page marked in use.
        False is the halt of memmap_alloc. */
    method PlaceTables() returns (ok: bool)
      requires Unused() && WellFormed(memmap[..])
      modifies this, memmap
      ensures !locked && available == 0 && cursor == 0
      ensures ok <==> HasBitmap(old(memmap[..])) && HasEntryMap(old(memmap[..]))
      ensures var mm := old(memmap[..]);
              ok ==>
                && memmap[..] == Trimmed(mm) && maxPages == TotalPages(Trimmed(mm))
                && lowest == LowestOf(mm) && numPagesInMap == PageCount(mm)
                && bitmapBase == BitmapBase(mm) && entryMapBase == EntryMapBase(mm)
                && fresh(bitmap) && Bits(bitmap[..]) == seq(8 * BitmapSize(PageCount(mm)), i => true)
                && fresh(entryMap) && entryMap[..] == seq(EntryMapSize(PageCount(mm)) / 4, i => 0)
                && bitmap as object != entryMap as object
    {
      hide Take, Taken, TotalPages, LowestOf, HighestOf, FirstFit, BitmapSize, AlignUpPage, Bits;
      ghost var mm := memmap[..];
      InitStats();
      ghost var n := numPagesInMap;
      CreatePageBitmap();
      EntryMapCovers(n);
      var size := AlignUpPage(Wrap64(4 * numPagesInMap));
      assert AlignUpPage(size) == EntryMapSize(n);
      if !HasBitmap(mm) {
        NoBitmapNoEntryMap(mm, n);
      }
      var base := MemmapAlloc(size);
      if base == None {
        return false;
      }
      assert HasBitmap(mm) && memmap[..] == Trimmed(mm);
      entryMapBase := base.value;
      entryMap := new u32[size / 4](_ => 0);
      ok := true;
    }

    /** kmem_init; false is the halt of memmap_alloc, which a map without room for either table meets.
        If it comes to _get_free_pages the bitmap must suffice. */
    method KmemInit() returns (ok: bool)
      requires Unused() && WellFormed(memmap[..])
      requires var mm := memmap[..]; HasBitmap(mm) && HasEntryMap(mm) ==> BitmapSuffices(mm)
      modifies this, memmap
      ensures !locked
      ensures ok <==> HasBitmap(old(memmap[..])) && HasEntryMap(old(memmap[..]))
      ensures var mm := old(memmap[..]);
              ok ==>
                && memmap[..] == Trimmed(mm) && State() == Booted(mm, hhdm)
                && bitmapBase == BitmapBase(mm) && entryMapBase == EntryMapBase(mm)
                && Separate() && fresh(bitmap) && fresh(entryMap)
    {
      ghost var mm := memmap[..];
      ok := PlaceTables();
      if ok {
        TotalPagesBound(Trimmed(mm), LowestOf(mm), 8 * bitmap.Length);
        GetFreePages(8 * bitmap.Length);
      }
    }

    // ---------- Allocation ----------

    /** _reserve_pages */
    method ReservePages(startPage: nat, pages: nat)
      requires startPage + pages <= 8 * bitmap.Length
      modifies bitmap
      ensures Bits(bitmap[..]) == Mark(old(Bits(bitmap[..])), startPage, pages, true)
    {
      for i := startPage to startPage + pages
        invariant Bits(bitmap[..]) == Mark(old(Bits(bitmap[..])), startPage, i - startPage, true)
      {
        BitmapOn(bitmap, i);
      }
    }

    /** The scan loop of kalloc.  On success the cursor is already past the run. */
    method FindPages(pagesToAlloc: nat) returns (found: bool, startAllocPage: nat)
      requires Sized(State())
      modifies this`cursor
      ensures State() == old(State()).(cursor := cursor)
      ensures var s := old(State());
              var out := RunScan(s.bits, s.max, pagesToAlloc, StartScan(s.cursor)).0;
              if found then out == Found(startAllocPage, cursor) else out.NoFit? && cursor == 0
    {
      hide RunScan;
      startAllocPage := 0;
      var allocatedPages: nat := 0;
      var looped, allocating := false, false;
      ghost var s := State();
      while true
        invariant cursor < maxPages
        invariant State() == s.(cursor := cursor)
        invariant RunScan(s.bits, s.max, pagesToAlloc, Scan(cursor, startAllocPage, allocatedPages, looped, allocating)).0
               == RunScan(s.bits, s.max, pagesToAlloc, StartScan(s.cursor)).0
        decreases Remaining(Scan(cursor, startAllocPage, allocatedPages, looped, allocating), maxPages)
      {
        ghost var scan := Scan(cursor, startAllocPage, allocatedPages, looped, allocating);
        RunScanStep(s.bits, s.max, pagesToAlloc, scan);
        var pageState := BitmapTest(bitmap, cursor);
        if !allocating {
          if !pageState {
            startAllocPage := cursor;
            allocating := true;
            allocatedPages := 1;
          }
        } else {
          if pageState {
            allocating := false;
          } else {
            allocatedPages := allocatedPages + 1;
          }
        }
        if allocatedPages == pagesToAlloc {
          cursor := cursor + 1;
          if cursor == maxPages {
            cursor := 0;
          }
          assert Iterate(s.bits, s.max, pagesToAlloc, scan) == Found(startAllocPage, cursor);
          found := true;
          return;
        }
        cursor := cursor + 1;
        if cursor == maxPages {
          cursor := 0;
          if looped {
            break;
          }
          looped := true;
          allocating := false;
        }
        assert Iterate(s.bits, s.max, pagesToAlloc, scan)
            == More(Scan(cursor, startAllocPage, allocatedPages, looped, allocating));
      }
      found := false;
    }

    /** What kalloc does with a run it found: mark it, record its size, count it off. */
    method Grant(startAllocPage: nat, allocatedPages: nat)
      requires Separate() && startAllocPage < entryMap.Length && startAllocPage + allocatedPages <= 8 * bitmap.Length
      modifies this`available, bitmap, entryMap
      ensures State() == Reserve(old(State()), startAllocPage, allocatedPages)
    {
      ReservePages(startAllocPage, allocatedPages);
      entryMap[startAllocPage] := Wrap32(allocatedPages);
      available := Wrap64(available - allocatedPages);
    }

    /** kalloc.  Taking a held lock never returns, so the lock must be free; it is free again after. */
    method KAlloc(numBytes: u64) returns (ptr: u64)
      requires Separate() && Sized(State()) && !locked
      modifies this`cursor, this`available, this`locked, bitmap, entryMap
      ensures !locked
      ensures State() == Kalloc(old(State()), numBytes).0 && ptr == Kalloc(old(State()), numBytes).1
    {
      hide RunScan, Bits, DivRoundUp;
      locked := true;
      var pagesToAlloc := DivRoundUp(numBytes);
      FoundInRange(Bits(bitmap[..]), maxPages, pagesToAlloc, cursor);
      var found, startAllocPage := FindPages(pagesToAlloc);
      if found {
        Grant(startAllocPage, pagesToAlloc);
        ptr := Wrap64(lowest + startAllocPage * PAGE_SIZE + hhdm);
      } else {
        ptr := 0;
      }
      locked := false;
    }

    /** kpalloc; the multiplication wraps. */
    method KPAlloc(numPages: u64) returns (ptr: u64)
      requires Separate() && Sized(State()) && !locked
      modifies this`cursor, this`available, this`locked, bitmap, entryMap
      ensures !locked
      ensures var (t, p) := Kalloc(old(State()), Wrap64(PAGE_SIZE * numPages)); State() == t && ptr == p
    {
      ptr := KAlloc(Wrap64(PAGE_SIZE * numPages));
    }

    /** kfree.  The block it clears must lie inside the bitmap, as it does for every block of an
        allocator that satisfies Inv.  True is the halt, with the lock still held. */
    method KFree(ptr: u64) returns (halted: bool)
      requires Separate() && Sized(State()) && !locked
      requires var p := PageOf(State(), ptr); p < maxPages ==> p + entryMap[p] <= 8 * bitmap.Length
      modifies this`locked, bitmap, entryMap
      ensures halted == locked == Kfree(old(State()), ptr).None?
      ensures State() == if halted then old(State()) else Kfree(old(State()), ptr).value
    {
      locked := true;
      var pageIndex := Wrap64(ptr - lowest - hhdm) / PAGE_SIZE;
      if pageIndex >= maxPages {
        return true;
      }
      var i := pageIndex;
      while i < pageIndex + entryMap[pageIndex]
        invariant entryMap[..] == old(entryMap[..])
        invariant pageIndex <= i <= pageIndex + entryMap[pageIndex]
        invariant Bits(bitmap[..]) == Mark(old(Bits(bitmap[..])), pageIndex, i - pageIndex, false)
      {
        BitmapOff(bitmap, i);
        i := i + 1;
      }
      entryMap[pageIndex] := 0;
      locked := false;
      halted := false;
    }
  }
}
