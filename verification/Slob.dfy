/** The SLOB allocator of src/alloc/slob.c, working in the memory it manages. */
module Slob {
  import opened Machine
  import opened ByteStore
  import opened SlobHeap
  import opened SlobMemory
  import opened MemoryMap
  import opened PhysicalMemory
  import opened Boot
  import AfterBoot

  class SlobAllocator {
    const pmm: Pmm            // memmap, memmap_alloc and vmm_higher_half_offset
    const mem: array<byte>    // physical memory, seen through the higher-half map
    var head: u64             // pHead
    var inited: bool          // _init
    ghost var heap: Heap
    ghost var initial: seq<FreeNode>
    ghost var table: Table

    constructor (pmm: Pmm, mem: array<byte>)
      ensures this.pmm == pmm && this.mem == mem && !inited && head == 0
    {
      this.pmm, this.mem, head, inited := pmm, mem, 0, false;
      heap, initial, table := Heap([], map[], {}), [], Table(0, 0);
    }

    /** Memory holds the heap, and the heap is a partition of what slob_init took over. */
    ghost predicate Valid()
      reads this, mem
    {
      Sound(mem[..], pmm.hhdm, head, heap, initial, table)
    }

    /** The pointer slob_malloc returns for the block whose header is at b. */
    function PtrOf(b: nat): int {
      b + HEADER + pmm.hhdm
    }

    // ---------- slob_init ----------

    /** What slob_init finds: a well-formed map of memory that exists, and room to index it. */
    ghost predicate Bootable()
      reads this, pmm, pmm.memmap
    {
      && WellFormed(pmm.memmap[..]) && pmm.maxPages == TotalPages(pmm.memmap[..])
      && pmm.memmap as object != mem as object && pmm.memmap.Length < 0x8000_0000
      && mem.Length + pmm.hhdm < TWO64
      && forall k :: 0 <= k < pmm.memmap.Length && pmm.memmap[k].usable ==> pmm.memmap[k].End() <= mem.Length
    }

    /** slob_init: a table of nodes, one for each usable entry of the map it was cut from.  False is the
        halt of memmap_alloc.  What it leaves of the map can be laid out again. */
    method SlobInit() returns (ok: bool)
      requires Bootable()
      modifies this`head, this`heap, this`initial, this`table, mem, pmm.memmap, pmm`maxPages
      ensures Bootable()
      ensures var mm := old(pmm.memmap[..]);
              var size := TableSize(mm);
              ok == MemoryMap.FirstFit(mm, size).Some?
              && (ok ==>
                    && pmm.memmap[..] == Take(mm, size)
                    && table == Table(Taken(mm, size), size) && initial == InitNodes(Take(mm, size), table.at)
                    && heap == Heap(initial, map[], {}) && Valid())
              && (!ok ==> pmm.memmap[..] == mm && mem[..] == old(mem[..]) && head == old(head))
    {
      hide Sound, InitNodes, Take, Taken, TotalPages, NodeStored, MemoryMap.FirstFit, ApartFromUsable;
      ghost var mm0 := pmm.memmap[..];
      ghost var size := TableSize(mm0);
      var numEntries := CountEntries();
      var base := pmm.MemmapAlloc(NODE * numEntries);
      if base == None {
        return false;
      }
      ghost var mm := pmm.memmap[..];
      TableFits(mm0, size, mem.Length);
      Fill(mem, base.value, 0, AlignUpPage(NODE * numEntries));
      WriteTable(base.value, numEntries);
      table, initial := Table(base.value, size), InitNodes(mm, base.value);
      heap := Heap(initial, map[], {});
      head := base.value + pmm.hhdm;
      InitialHeapIsSound(mm, mem[..], pmm.hhdm, table);
      ok := true;
    }

    /** How many entries slob_init will need. */
    method CountEntries() returns (numEntries: nat)
      ensures numEntries == |InitNodes(pmm.memmap[..], 0)| <= pmm.memmap.Length
    {
      ghost var mm := pmm.memmap[..];
      numEntries := 0;
      for i := 0 to pmm.memmap.Length
        invariant numEntries == |InitNodes(mm[..i], 0)| <= i
      {
        assert mm[..i + 1][..i] == mm[..i];
        if pmm.memmap[i].usable {
          numEntries := numEntries + 1;
        }
      }
      assert mm[..pmm.memmap.Length] == mm;
    }

    /** The second loop of slob_init. */
    method WriteTable(at: nat, numEntries: nat)
      requires pmm.memmap as object != mem as object
      requires at + NODE * numEntries <= mem.Length && mem.Length + pmm.hhdm < TWO64
      requires numEntries == |InitNodes(pmm.memmap[..], at)|
      modifies mem
      ensures pmm.memmap[..] == old(pmm.memmap[..])
      ensures var nodes := InitNodes(pmm.memmap[..], at);
              forall k :: 0 <= k < |nodes| ==> NodeStored(mem[..], pmm.hhdm, nodes, k)
    {
      hide InitNodes, NodeStored, NodeAt, ChangedOnly;
      ghost var mm := pmm.memmap[..];
      ghost var nodes := InitNodes(mm, at);
      var entryIndex := 0;
      InitNodesStart(mm, at);
      for i := 0 to pmm.memmap.Length
        invariant pmm.memmap[..] == mm
        invariant entryIndex == |InitNodes(mm[..i], at)| <= |nodes|
        invariant forall k :: 0 <= k < entryIndex ==> NodeStored(mem[..], pmm.hhdm, nodes, k)
      {
        InitNodesStep(mm, at, i);
        if pmm.memmap[i].usable {
          var next := if entryIndex < numEntries - 1 then at + NODE * (entryIndex + 1) + pmm.hhdm else 0;
          ghost var m := mem[..];
          WriteNode(at + NODE * entryIndex, next, pmm.memmap[i].base, pmm.memmap[i].length);
          OneMoreNode(m, mem[..], pmm.hhdm, nodes, at, entryIndex);
          entryIndex := entryIndex + 1;
        }
      }
      assert mm[..pmm.memmap.Length] == mm;
    }

    // ---------- slob_malloc ----------

    /** A struct SlobEntry, written field by field. */
    method WriteNode(at: nat, next: u64, base: u64, length: u64)
      requires at + NODE <= mem.Length
      modifies mem
      ensures ChangedOnly(old(mem[..]), mem[..], at, NODE)
      ensures NodeAt(mem[..], FreeNode(at, base, length), next)
    {
      NodeWritten(mem[..], at, next, base, length);
      Write64(mem, at + 16, length);
      Write64(mem, at + 8, base);
      Write64(mem, at, next);
    }

    /** The body of the search loop once node k fits: header in, node moved up. */
    method SplitEntry(at: nat, size: u64, ghost k: nat) returns (ptr: u64)
      requires Valid() && size + HEADER < TWO64
      requires k < |heap.nodes| && heap.nodes[k].at == at && size + HEADER <= heap.nodes[k].len
      modifies this`heap, mem
      ensures Valid() && heap == Split(old(heap), k, size + HEADER)
      ensures ptr == PtrOf(old(heap.nodes[k].base))
      ensures BlocksKept(old(mem[..]), mem[..], old(heap))
    {
      hide Sound, NodeAt, HeaderAt, ChangedOnly, Load64, Store64, BlocksKept;
      ghost var h, first, tab, hd, n := heap, initial, table, head, heap.nodes[k];
      ghost var m, next := mem[..], Ptr(heap.nodes, k + 1, pmm.hhdm);
      NodeOf(m, pmm.hhdm, hd, h, first, tab, k);
      var totalSize := HEADER + size;
      var base := WriteHeader(at, totalSize, n, next);
      ghost var m1 := mem[..];
      HeaderKeepsNode(m, m1, pmm.hhdm, hd, h, first, tab, k);
      MoveEntry(at, totalSize, n, next);
      SplitIsSound(m, m1, mem[..], pmm.hhdm, hd, h, first, tab, k, totalSize);
      SoundMeansInv(m, pmm.hhdm, hd, h, first, tab);
      SplitKeepsBlocks(m, m1, mem[..], h, first, tab, k);
      heap := Split(h, k, totalSize);
      ptr := base + HEADER + pmm.hhdm;
    }

    /** pHeader->length = totalSize, at the base of the free region. */
    method WriteHeader(at: nat, totalSize: u64, ghost n: FreeNode, ghost next: int) returns (base: u64)
      requires NodeAt(mem[..], n, next) && at == n.at && HEADER <= n.len && n.base + n.len <= mem.Length
      modifies mem
      ensures base == n.base
      ensures ChangedOnly(old(mem[..]), mem[..], n.base, HEADER) && HeaderAt(mem[..], n.base, totalSize)
    {
      hide HeaderAt, ChangedOnly, Store64, Load64;
      base := Read64(mem, at + 8);
      HeaderWritten(mem[..], base, totalSize);
      Write64(mem, base, totalSize);
    }

    /** pNext->base += totalSize; pNext->length -= totalSize. */
    method MoveEntry(at: nat, totalSize: u64, ghost n: FreeNode, ghost next: int)
      requires NodeAt(mem[..], n, next) && at == n.at
      requires totalSize <= n.len && n.base + n.len < TWO64
      modifies mem
      ensures ChangedOnly(old(mem[..]), mem[..], n.at, NODE)
      ensures NodeAt(mem[..], FreeNode(n.at, n.base + totalSize, n.len - totalSize), next)
    {
      hide ChangedOnly, Store64, Load64;
      ghost var m := mem[..];
      var base := Read64(mem, at + 8);
      BaseWritten(m, n, next, base + totalSize);
      Write64(mem, at + 8, base + totalSize);
      ghost var m1 := mem[..];
      var length := Read64(mem, at + 16);
      LengthWritten(m1, n.(base := base + totalSize), next, length - totalSize);
      Write64(mem, at + 16, length - totalSize);
      ChangedTwice(m, m1, mem[..], n.at, NODE);
    }

    /** ptr is what a caller that asked for size bytes has to hold: past the header of a block of its own
        that has room for them, and good to be freed. */
    ghost predicate Holds(ptr: int, size: u64)
      reads this`heap
    {
      && ptr - HEADER - pmm.hhdm >= 0 && Live(heap, ptr - HEADER - pmm.hhdm)
      && heap.blocks[ptr - HEADER - pmm.hhdm] == size + HEADER
    }

    /** slob_malloc on an initialised heap; 0 when nothing fits. */
    method Allocate(size: u64) returns (ptr: u64)
      requires Valid() && SafeSize(heap, size)
      modifies this`heap, mem
      ensures Valid() && heap == Malloc(old(heap), size).0
      ensures var b := Malloc(old(heap), size).1; ptr == if b.None? then 0 else PtrOf(b.value)
      ensures ptr != 0 ==> Holds(ptr, size)
      ensures BlocksKept(old(mem[..]), mem[..], old(heap))
    {
      hide Inv, NodeStored, Load64;
      AllocatedBlock(heap, initial, table, size);
      var totalSize := Wrap64(size + HEADER);
      var p := head;
      ghost var k := 0;
      while p != 0
        invariant Valid() && heap == old(heap)
        invariant 0 <= k <= |heap.nodes| && p == Ptr(heap.nodes, k, pmm.hhdm)
        invariant forall j :: 0 <= j < k ==> heap.nodes[j].len < totalSize
        invariant mem[..] == old(mem[..])
        decreases |heap.nodes| - k
      {
        ReadsOfNode(mem[..], pmm.hhdm, head, heap, k, p);
        var length := Read64(mem, p - pmm.hhdm + 16);
        if totalSize <= length {
          FirstFitIs(heap.nodes, totalSize, k);
          ptr := SplitEntry(p - pmm.hhdm, size, k);
          return;
        }
        p := Read64(mem, p - pmm.hhdm);
        k := k + 1;
      }
      EndOfList(heap, initial, table, k, pmm.hhdm);
      ptr := 0;
    }

    /** slob_malloc.  The first call lays out the heap; ok is false when that halts. */
    method SlobMalloc(size: u64) returns (ok: bool, ptr: u64)
      requires if inited then Valid() && SafeSize(heap, size) else Bootable() && size + HEADER < TWO64
      modifies this, mem, pmm.memmap, pmm`maxPages
      ensures old(inited) ==> ok && inited && Valid() && heap == Malloc(old(heap), size).0
      ensures old(inited) ==> var b := Malloc(old(heap), size).1; ptr == if b.None? then 0 else PtrOf(b.value)
      ensures ok && ptr != 0 ==> Holds(ptr, size)
      ensures old(inited) ==> BlocksKept(old(mem[..]), mem[..], old(heap))
      ensures !old(inited) ==> ok == MemoryMap.FirstFit(old(pmm.memmap[..]), TableSize(old(pmm.memmap[..]))).Some?
      ensures !old(inited) && ok ==>
                var mm, n := old(pmm.memmap[..]), TableSize(old(pmm.memmap[..]));
                pmm.memmap[..] == Take(mm, n) && table == Table(Taken(mm, n), n)
      ensures !old(inited) && ok ==>
                && inited && Valid() && initial == InitNodes(pmm.memmap[..], table.at)
                && heap == Malloc(Heap(initial, map[], {}), size).0
                && var b := Malloc(Heap(initial, map[], {}), size).1; ptr == if b.None? then 0 else PtrOf(b.value)
    {
      if !inited {
        ok := SlobInit();
        if !ok {
          return false, 0;
        }
        inited := true;
      }
      ok := true;
      ptr := Allocate(size);
    }

    /** What kmem_init finds. */
    ghost predicate Fresh()
      reads this, pmm, pmm.memmap
    {
      && pmm.Unused() && WellFormed(pmm.memmap[..])
      && (HasBitmap(pmm.memmap[..]) && HasEntryMap(pmm.memmap[..]) ==> BitmapSuffices(pmm.memmap[..]))
      && pmm.memmap as object != mem as object && pmm.memmap.Length < 0x8000_0000
      && mem.Length + pmm.hhdm < TWO64
      && forall k :: 0 <= k < pmm.memmap.Length && pmm.memmap[k].usable ==> pmm.memmap[k].End() <= mem.Length
    }

    /** kmem_init and slob_init in a row (src/kernel.c:79-80).  The page allocator is then as kmem_init left
        it, with the pages of the table off its scan region but not out of its bitmap. */
    method BootMemory() returns (ok: bool)
      requires Fresh()
      modifies this`head, this`heap, this`initial, this`table, mem, pmm, pmm.memmap
      ensures var mm := old(pmm.memmap[..]);
              && (ok <==>
                    && HasBitmap(mm) && HasEntryMap(mm) && |Trimmed(mm)| == |mm|
                    && MemoryMap.FirstFit(Trimmed(mm), TableSize(Trimmed(mm))).Some?)
              && (ok ==>
                    && TableSize(Trimmed(mm)) / PAGE_SIZE <= Booted(mm, pmm.hhdm).max
                    && pmm.State() == AfterBoot.Shrunk(Booted(mm, pmm.hhdm), TableSize(Trimmed(mm)))
                    && Bootable() && Valid())
              && (ok ==>
                    var n := TableSize(Trimmed(mm));
                    && pmm.memmap[..] == Take(Trimmed(mm), n) && table == Table(Taken(Trimmed(mm), n), n)
                    && initial == InitNodes(Take(Trimmed(mm), n), table.at) && heap == Heap(initial, map[], {})
                    && 0 < table.len && initial != [])
    {
      hide Sound, Take, MemoryMap.FirstFit, WellFormed, InitNodes, TotalPages, PageCount, HasBitmap, HasEntryMap;
      ghost var mm := pmm.memmap[..];
      ok := pmm.KmemInit();
      if ok {
        TrimmedFits(mm, mem.Length);
        ok := SlobInit();
        if ok {
          PagesAfterTake(Trimmed(mm), TableSize(Trimmed(mm)));
          TableFits(Trimmed(mm), table.len, mem.Length);
          SomeNodes(Trimmed(mm), table.len);
        }
      }
    }

    /** How the kernel starts (src/kernel.c:80): slob_init, which does not set _init, so that the first
        slob_malloc lays the heap out again.  The map is cut a second time, and the first table stays
        outside everything the heap will ever manage. */
    method StartKernelHeap(size: u64) returns (ok: bool, ptr: u64, ghost first: Table)
      requires Bootable() && !inited && size + HEADER < TWO64
      modifies this, mem, pmm.memmap, pmm`maxPages
      ensures var mm, n := old(pmm.memmap[..]), TableSize(old(pmm.memmap[..]));
              && (ok <==> MemoryMap.FirstFit(mm, n).Some? && MemoryMap.FirstFit(Take(mm, n), n).Some?)
              && (ok ==>
                    && pmm.memmap[..] == Take(Take(mm, n), n)
                    && first == Table(Taken(mm, n), n) && table == Table(Taken(Take(mm, n), n), n)
                    && inited && Valid() && initial == InitNodes(pmm.memmap[..], table.at)
                    && heap == Malloc(Heap(initial, map[], {}), size).0
                    && var b := Malloc(Heap(initial, map[], {}), size).1; ptr == if b.None? then 0 else PtrOf(b.value))
      ensures ok && ptr != 0 ==> Holds(ptr, size)
      ensures ok ==> 0 < first.len && Disjoint(first.at, first.len, table.at, table.len)
      ensures ok ==> forall x :: first.at <= x < first.at + first.len ==> !InNodes(initial, x)
    {
      hide Sound, Take, MemoryMap.FirstFit, WellFormed, InitNodes;
      ghost var mm := pmm.memmap[..];
      ok := SlobInit();
      if !ok {
        return false, 0, Table(0, 0);
      }
      first := table;
      SameTableSize(mm, first.len);
      ok, ptr := SlobMalloc(size);
      if ok {
        FirstTableIsLost(mm, first.len, table.at);
      }
    }

    // ---------- slob_free ----------

    /** The second half of slob_free: the node for the block at header goes into the block at cell, and
        the cell to the front of the list. */
    method Prepend(header: nat, cell: nat)
      requires Valid() && Live(heap, header) && Live(heap, cell) && header != cell && heap.blocks[cell] == CELL
      modifies this`heap, this`head, mem
      ensures Valid() && heap == Relist(old(heap), header, cell)
      ensures BlocksKept(old(mem[..]), mem[..], old(heap).(cells := old(heap).cells + {cell}))
    {
      hide Sound, NodeAt, HeaderAt, ChangedOnly, BlocksKept;
      ghost var h, first, tab, hd, m := heap, initial, table, head, mem[..];
      HeaderOf(m, pmm.hhdm, hd, h, first, tab, header);
      HeaderOf(m, pmm.hhdm, hd, h, first, tab, cell);
      var length := Read64(mem, header);
      WriteNode(cell + HEADER, head, header, length);
      RelistIsSound(m, mem[..], pmm.hhdm, hd, h, first, tab, header, cell);
      SoundMeansInv(m, pmm.hhdm, hd, h, first, tab);
      RelistKeepsBlocks(m, mem[..], h, first, tab, cell);
      head := cell + HEADER + pmm.hhdm;
      heap := Relist(h, header, cell);
    }

    /** slob_free of a pointer that a caller holds.  False when there is no room for the list node: the
        code does not check, and would write the node through a null pointer. */
    method SlobFree(ptr: u64) returns (ok: bool)
      requires Valid() && ptr >= pmm.hhdm + HEADER && Live(heap, ptr - HEADER - pmm.hhdm)
      modifies this`heap, this`head, mem
      ensures Valid()
      ensures Free(old(heap), ptr - HEADER - pmm.hhdm) == if ok then Some(heap) else None
      ensures !ok ==> heap == old(heap)
      ensures BlocksKept(old(mem[..]), mem[..], old(heap))
    {
      hide BlocksKept, Sound, Inv, Malloc, Free;
      ghost var m := mem[..];
      SoundMeansInv(m, pmm.hhdm, head, heap, initial, table);
      var header := ptr - HEADER - pmm.hhdm;
      ghost var h := heap;
      var entry := Allocate(NODE);
      if entry == 0 {
        NoCellNoFree(h, header);
        return false;
      }
      var cell := entry - HEADER - pmm.hhdm;
      ghost var h1, m1 := heap, mem[..];
      FreeWithCell(h, initial, table, header, h1, cell);
      NewCellIsNoBlock(h, initial, table, cell);
      Prepend(header, cell);
      BlocksKeptTwice(m, m1, mem[..], h, h1.(cells := h1.cells + {cell}));
      ok := true;
    }

    // ---------- The caller ----------

    /** Whatever a caller stores in a block it holds, the heap stays as it is. */
    method ClientWrite(ptr: u64, offset: nat, v: byte)
      requires Valid() && ptr >= pmm.hhdm + HEADER && Live(heap, ptr - HEADER - pmm.hhdm)
      requires offset < heap.blocks[ptr - HEADER - pmm.hhdm] - HEADER
      modifies mem
      ensures Valid() && mem[..] == old(mem[..])[ptr - pmm.hhdm + offset := v]
    {
      ghost var h, m, b := heap, mem[..], ptr - HEADER - pmm.hhdm;
      PayloadIsPrivate(h, initial, table, b);
      mem[ptr - pmm.hhdm + offset] := v;
      PrivateWrite(m, mem[..], pmm.hhdm, head, h, b + HEADER, h.blocks[b] - HEADER);
    }

    /** A caller's whole use of the heap: a block of size bytes, a byte stored anywhere in it, and the block
        given back.  The heap is sound throughout; the bytes are free again, all that is gone is the cell. */
    method UseBlock(size: u64, offset: nat, v: byte) returns (ptr: u64, freed: bool)
      requires Valid() && SafeSize(heap, size) && offset < size
      modifies this`heap, this`head, mem
      ensures Valid()
      ensures ptr == 0 <==> Malloc(old(heap), size).1 == None
      ensures ptr == 0 ==> !freed && heap == old(heap)
      ensures ptr != 0 ==>
                var h, b := Malloc(old(heap), size).0, ptr - HEADER - pmm.hhdm;
                && b >= 0 && Malloc(old(heap), size).1 == Some(b) && Live(h, b)
                && (freed <==> Free(h, b).Some?) && (!freed ==> heap == h) && (freed ==> Some(heap) == Free(h, b))
                && (freed ==> heap.nodes != [] && heap.nodes[0].base == b && heap.nodes[0].len == size + HEADER)
      ensures BlocksKept(old(mem[..]), mem[..], old(heap))
    {
      hide Sound, Inv, BlocksKept, Malloc, Free, SafeSize;
      ghost var m0, h0 := mem[..], heap;
      SoundMeansInv(m0, pmm.hhdm, head, h0, initial, table);
      freed := false;
      NothingCut(h0, size);
      ptr := Allocate(size);
      if ptr != 0 {
        ghost var h, b, m := heap, ptr - HEADER - pmm.hhdm, mem[..];
        SoundMeansInv(m, pmm.hhdm, head, h, initial, table);
        OldBlocksStay(h0, initial, table, size);
        SoundBlock(m, pmm.hhdm, head, h, initial, table, b);
        ClientWrite(ptr, offset, v);
        WriteKeepsBlocks(m, mem[..], h0, h, initial, table, b, ptr - pmm.hhdm + offset, v);
        BlocksKeptTwice(m0, m, mem[..], h0, h0);
        m := mem[..];
        freed := SlobFree(ptr);
        BlocksKeptTwice(m0, m, mem[..], h0, h);
        if freed {
          FreeGivesBack(h, initial, table, b);
        }
      }
    }
  }

  lemma TrimmedFits(mm: MemMap, limit: nat)
    requires HasBitmap(mm) && HasEntryMap(mm)
    requires forall k :: 0 <= k < |mm| && mm[k].usable ==> mm[k].End() <= limit
    ensures |Trimmed(mm)| == |mm| && WellFormed(Trimmed(mm))
    ensures forall k :: 0 <= k < |mm| && Trimmed(mm)[k].usable ==> Trimmed(mm)[k].End() <= limit
  {
  }

  lemma NothingCut(h: Heap, size: u64)
    ensures Malloc(h, size).1 == None ==> Malloc(h, size).0 == h
  {
  }

  lemma NoCellNoFree(h: Heap, b: nat)
    requires Live(h, b) && Malloc(h, NODE).1 == None
    ensures Free(h, b) == None && Malloc(h, NODE).0 == h
  {
  }

  lemma SoundBlock(m: seq<byte>, hhdm: u64, head: int, h: Heap, initial: seq<FreeNode>, table: Table, b: nat)
    requires Sound(m, hhdm, head, h, initial, table) && Live(h, b)
    ensures b + h.blocks[b] <= |m|
  {
  }

  lemma OldBlocksStay(h: Heap, initial: seq<FreeNode>, table: Table, size: u64)
    requires Inv(h, initial, table) && SafeSize(h, size)
    ensures var (t, c) := Malloc(h, size);
            && (forall b: nat :: Live(h, b) ==> Live(t, b) && t.blocks[b] == h.blocks[b])
            && (c.Some? ==> !Live(h, c.value))
  {
    SafeOrRefused(h, size);
    MallocIsFirstFit(h, initial, table, size);
  }

  /** A write into block b keeps all the others. */
  lemma WriteKeepsBlocks(m: seq<byte>, m': seq<byte>, h0: Heap, h: Heap, initial: seq<FreeNode>, table: Table, b: nat, x: nat, v: byte)
    requires Inv(h, initial, table) && Live(h, b) && b <= x < b + h.blocks[b] && x < |m| && m' == m[x := v]
    requires forall c: nat :: Live(h0, c) ==> c != b && Live(h, c) && h.blocks[c] == h0.blocks[c]
    ensures BlocksKept(m, m', h0)
  {
    ElsewhereKeepsBlocks(m, m', h0, x, 1);
  }

  lemma SoundMeansInv(m: seq<byte>, hhdm: u64, head: int, h: Heap, initial: seq<FreeNode>, table: Table)
    requires Sound(m, hhdm, head, h, initial, table)
    ensures Inv(h, initial, table)
  {
  }

  /** The cell of a free is none of the blocks callers held. */
  lemma NewCellIsNoBlock(h: Heap, initial: seq<FreeNode>, table: Table, c: nat)
    requires Inv(h, initial, table) && Malloc(h, NODE).1 == Some(c)
    ensures var h1 := Malloc(h, NODE).0;
            forall b: nat :: Live(h, b) ==> Live(h1.(cells := h1.cells + {c}), b) && h1.blocks[b] == h.blocks[b]
  {
    MallocIsFirstFit(h, initial, table, NODE);
  }

  /** The block slob_malloc has cut is live, and as long as the request and its header. */
  lemma AllocatedBlock(h: Heap, initial: seq<FreeNode>, table: Table, size: u64)
    requires Inv(h, initial, table) && SafeSize(h, size)
    ensures var (t, b) := Malloc(h, size); b.Some? ==> Live(t, b.value) && t.blocks[b.value] == size + HEADER
  {
    SafeOrRefused(h, size);
    MallocIsFirstFit(h, initial, table, size);
  }

  /** The nodes slob_init makes: one for each usable entry, side by side from at on. */
  function InitNodes(mm: MemMap, at: nat): (nodes: seq<FreeNode>)
    ensures |nodes| <= |mm|
    ensures forall k :: 0 <= k < |nodes| ==> nodes[k].at == at + NODE * k
  {
    if mm == [] then []
    else
      var before, e := InitNodes(mm[..|mm| - 1], at), mm[|mm| - 1];
      if e.usable then before + [FreeNode(at + NODE * |before|, e.base, e.length)] else before
  }

  /** The places of the usable entries of a map. */
  function UsablePlaces(mm: MemMap): set<nat> {
    set i: nat | i < |mm| && mm[i].usable
  }

  lemma OneMorePlace(mm: MemMap)
    requires mm != []
    ensures |UsablePlaces(mm)| == |UsablePlaces(mm[..|mm| - 1])| + if mm[|mm| - 1].usable then 1 else 0
  {
    var last := |mm| - 1;
    assert UsablePlaces(mm) == UsablePlaces(mm[..last]) + if mm[last].usable then {last} else {};
  }

  /** The node of entry i stands behind those of the usable entries before it. */
  predicate HasItsNode(mm: MemMap, nodes: seq<FreeNode>, at: nat, i: nat)
    requires i < |mm|
  {
    var k := |UsablePlaces(mm[..i])|;
    k < |nodes| && nodes[k] == FreeNode(at + NODE * k, mm[i].base, mm[i].length)
  }

  /** There is one node for each usable entry, in the order of the map. */
  lemma {:induction false} NodesFollowMap(mm: MemMap, at: nat)
    ensures |InitNodes(mm, at)| == |UsablePlaces(mm)|
    ensures forall i :: 0 <= i < |mm| && mm[i].usable ==> HasItsNode(mm, InitNodes(mm, at), at, i)
  {
    if mm != [] {
      hide UsablePlaces;
      var last := |mm| - 1;
      var init := mm[..last];
      NodesFollowMap(init, at);
      OneMorePlace(mm);
      forall i | 0 <= i < |mm| && mm[i].usable ensures HasItsNode(mm, InitNodes(mm, at), at, i) {
        if i < last {
          assert HasItsNode(init, InitNodes(init, at), at, i);
          assert init[..i] == mm[..i];
        }
      }
    } else {
      assert UsablePlaces(mm) == {};
    }
  }

  /** The table takes the fewest pages that hold a node for each. */
  lemma TableIsTight(mm: MemMap)
    requires |mm| < 0x8000_0000
    ensures IsPageCount(24 * |UsablePlaces(mm)|, TableSize(mm) / PAGE_SIZE)
  {
    NodesFollowMap(mm, 0);
    DivRoundUpIsCeiling(NODE * |InitNodes(mm, 0)|);
  }

  /** The bytes slob_init takes for its table. */
  function TableSize(mm: MemMap): (size: u64)
    requires |mm| < 0x8000_0000
    ensures size % PAGE_SIZE == 0 && NODE * |InitNodes(mm, 0)| <= size
  {
    AlignUpPage(NODE * |InitNodes(mm, 0)|)
  }

  lemma {:induction false} InitNodesPrefix(mm: MemMap, at: nat, i: nat)
    requires i <= |mm|
    ensures InitNodes(mm[..i], at) <= InitNodes(mm, at)
  {
    if i < |mm| {
      InitNodesPrefix(mm[..|mm| - 1], at, i);
      assert mm[..|mm| - 1][..i] == mm[..i];
    } else {
      assert mm[..i] == mm;
    }
  }

  /** Taking the table off an entry changes no entry's usability, so the count still stands. */
  lemma {:induction false} SameCount(mm: MemMap, mm': MemMap, at: nat, at': nat)
    requires |mm| == |mm'| && forall i :: 0 <= i < |mm| ==> mm[i].usable == mm'[i].usable
    ensures |InitNodes(mm, at)| == |InitNodes(mm', at')|
  {
    if mm != [] {
      SameCount(mm[..|mm| - 1], mm'[..|mm| - 1], at, at');
    }
  }

  lemma TakeKeepsCount(mm: MemMap, size: u64, at: nat)
    requires WellFormed(mm) && size % PAGE_SIZE == 0 && MemoryMap.FirstFit(mm, size).Some?
    ensures |InitNodes(Take(mm, size), at)| == |InitNodes(mm, 0)|
  {
    SameCount(mm, Take(mm, size), 0, at);
  }

  /** The second table is as large as the first. */
  lemma SameTableSize(mm: MemMap, size: u64)
    requires |mm| < 0x8000_0000 && size == TableSize(mm)
    requires WellFormed(mm) && MemoryMap.FirstFit(mm, size).Some?
    ensures TableSize(Take(mm, size)) == size
  {
    TakeKeepsCount(mm, size, 0);
  }

  /** The first table meets neither the second nor any region the heap is laid out over. */
  lemma FirstTableIsLost(mm: MemMap, size: u64, at: nat)
    requires |mm| < 0x8000_0000 && size == TableSize(mm)
    requires WellFormed(mm) && MemoryMap.FirstFit(mm, size).Some? && MemoryMap.FirstFit(Take(mm, size), size).Some?
    ensures 0 < size && Disjoint(Taken(mm, size), size, Taken(Take(mm, size), size), size)
    ensures forall x :: Taken(mm, size) <= x < Taken(mm, size) + size ==> !InNodes(InitNodes(Take(Take(mm, size), size), at), x)
  {
    hide InitNodes, TableSize;
    var mm1 := Take(mm, size);
    TakenIsApart(mm, size);
    TakenIsApart(mm1, size);
    SomeNodes(mm, size);
    InitNodesApart(Take(mm1, size), at);
  }

  lemma SomeNodes(mm: MemMap, size: u64)
    requires |mm| < 0x8000_0000 && size == TableSize(mm) && MemoryMap.FirstFit(mm, size).Some?
    ensures 0 < size
  {
    UsableMeansNode(mm, 0, MemoryMap.FirstFit(mm, size).value);
  }

  /** Writing a header leaves the node it is written for. */
  lemma HeaderKeepsNode(m: seq<byte>, m1: seq<byte>, hhdm: u64, head: int,
                        h: Heap, initial: seq<FreeNode>, table: Table, k: nat)
    requires Sound(m, hhdm, head, h, initial, table) && k < |h.nodes| && HEADER <= h.nodes[k].len
    requires ChangedOnly(m, m1, h.nodes[k].base, HEADER)
    ensures NodeAt(m1, h.nodes[k], Ptr(h.nodes, k + 1, hhdm))
  {
    HeaderIsStored(m, m1, hhdm, head, h, initial, table, k);
    assert NodeStored(m1, hhdm, h.nodes, k);
  }

  lemma InitNodesStart(mm: MemMap, at: nat)
    ensures InitNodes(mm[..0], at) == []
  {
  }

  /** One entry further. */
  lemma InitNodesStep(mm: MemMap, at: nat, i: nat)
    requires i < |mm|
    ensures var e, nodes := |InitNodes(mm[..i], at)|, InitNodes(mm, at);
            if mm[i].usable then
              |InitNodes(mm[..i + 1], at)| == e + 1 <= |nodes| && nodes[e] == FreeNode(at + NODE * e, mm[i].base, mm[i].length)
            else |InitNodes(mm[..i + 1], at)| == e
  {
    assert mm[..i + 1][..i] == mm[..i];
    InitNodesPrefix(mm, at, i + 1);
  }

  /** Writing the next node of the table disturbs none of those before it. */
  lemma OneMoreNode(m: seq<byte>, m': seq<byte>, hhdm: u64, nodes: seq<FreeNode>, at: nat, e: nat)
    requires e < |nodes| && forall k :: 0 <= k < |nodes| ==> nodes[k].at == at + NODE * k
    requires forall k :: 0 <= k < e ==> NodeStored(m, hhdm, nodes, k)
    requires ChangedOnly(m, m', at + NODE * e, NODE)
    requires NodeAt(m', nodes[e], if e < |nodes| - 1 then at + NODE * (e + 1) + hhdm else 0)
    ensures forall k :: 0 <= k < e + 1 ==> NodeStored(m', hhdm, nodes, k)
  {
    forall k | 0 <= k < e ensures NodeStored(m', hhdm, nodes, k) {
      assert NodeStored(m, hhdm, nodes, k);
      NodeUnchanged(m, m', nodes[k], Ptr(nodes, k + 1, hhdm));
    }
    assert NodeStored(m', hhdm, nodes, e);
  }

  /** Some usable entry is the region of n. */
  ghost predicate Described(mm: MemMap, n: FreeNode) {
    exists i :: 0 <= i < |mm| && Describes(mm[i], n)
  }

  predicate Describes(e: MemEntry, n: FreeNode) {
    e.usable && e.base == n.base && e.length == n.len
  }

  ghost predicate AllDescribed(mm: MemMap, nodes: seq<FreeNode>) {
    && (forall k :: 0 <= k < |nodes| ==> Described(mm, nodes[k]))
    && (forall j, k :: 0 <= j < k < |nodes| ==> Disjoint(nodes[j].base, nodes[j].len, nodes[k].base, nodes[k].len))
  }

  /** Each node describes a usable entry; nodes describe different ones. */
  lemma {:induction false} InitNodesApart(mm: MemMap, at: nat)
    requires WellFormed(mm)
    ensures AllDescribed(mm, InitNodes(mm, at))
  {
    if mm != [] {
      var last := |mm| - 1;
      var init := mm[..last];
      InitNodesApart(init, at);
      var before, nodes := InitNodes(init, at), InitNodes(mm, at);
      forall k | 0 <= k < |before|
        ensures Described(mm, before[k])
        ensures mm[last].usable ==> Disjoint(before[k].base, before[k].len, mm[last].base, mm[last].length)
      {
        assert Described(init, before[k]);
        var i :| 0 <= i < last && Describes(init[i], before[k]);
        assert Describes(mm[i], before[k]);
        assert mm[last].usable ==> MemoryMap.Apart(mm[i], mm[last]);
      }
      assert mm[last].usable ==> Describes(mm[last], nodes[|nodes| - 1]);
    }
  }

  lemma {:induction false} UsableMeansNode(mm: MemMap, at: nat, i: nat)
    requires i < |mm| && mm[i].usable
    ensures |InitNodes(mm, at)| > 0
  {
    if i < |mm| - 1 {
      UsableMeansNode(mm[..|mm| - 1], at, i);
    }
  }

  /** The table lies inside memory, outside what is left of the map, and has a node to hold. */
  lemma TableFits(mm: MemMap, size: u64, limit: nat)
    requires WellFormed(mm) && size % PAGE_SIZE == 0 && MemoryMap.FirstFit(mm, size).Some?
    requires forall k :: 0 <= k < |mm| && mm[k].usable ==> mm[k].End() <= limit
    ensures var at := Taken(mm, size);
            && 0 < at && at + size <= limit && ApartFromUsable(Take(mm, size), at, size)
            && |InitNodes(Take(mm, size), at)| == |InitNodes(mm, 0)| > 0
    ensures forall k :: 0 <= k < |mm| && Take(mm, size)[k].usable ==> Take(mm, size)[k].End() <= limit
  {
    var i := MemoryMap.FirstFit(mm, size).value;
    assert Aligned(mm[i]);
    TakenIsApart(mm, size);
    TakeKeepsCount(mm, size, Taken(mm, size));
    UsableMeansNode(mm, 0, i);
  }

  /** The heap slob_init lays out is sound: nothing allocated, the free regions are the trimmed map. */
  lemma InitialHeapIsSound(mm: MemMap, m: seq<byte>, hhdm: u64, table: Table)
    requires WellFormed(mm) && ApartFromUsable(mm, table.at, table.len) && 0 < table.at
    requires forall k :: 0 <= k < |mm| && mm[k].usable ==> mm[k].End() <= |m|
    requires var nodes := InitNodes(mm, table.at);
             && 0 < |nodes| && NODE * |nodes| <= table.len
             && forall k :: 0 <= k < |nodes| ==> NodeStored(m, hhdm, nodes, k)
    requires |m| + hhdm < TWO64
    ensures var nodes := InitNodes(mm, table.at);
            Sound(m, hhdm, table.at + hhdm, Heap(nodes, map[], {}), nodes, table)
  {
    var nodes := InitNodes(mm, table.at);
    var h := Heap(nodes, map[], {});
    InitNodesApart(mm, table.at);
    forall k | 0 <= k < |nodes|
      ensures nodes[k].base + nodes[k].len <= |m|
      ensures Disjoint(table.at, table.len, nodes[k].base, nodes[k].len)
      ensures Housed(h, table, nodes[k].at)
    {
      assert Described(mm, nodes[k]);
      var i :| 0 <= i < |mm| && Describes(mm[i], nodes[k]);
    }
  }

  /** No node has the address 0, so the loop ends only past the last one. */
  lemma EndOfList(h: Heap, initial: seq<FreeNode>, table: Table, k: nat, hhdm: u64)
    requires Inv(h, initial, table) && k <= |h.nodes| && Ptr(h.nodes, k, hhdm) == 0
    ensures k == |h.nodes|
  {
  }

  // ---------- The same memory as the page allocator's ----------

  /** Page i, counted from lowest, lies in the region of n. */
  predicate HoldsPage(n: FreeNode, lowest: u64, i: int) {
    n.base <= lowest + i * PAGE_SIZE && lowest + (i + 1) * PAGE_SIZE <= n.base + n.len
  }

  ghost predicate SomeNodeHolds(nodes: seq<FreeNode>, lowest: u64, i: int) {
    exists k :: 0 <= k < |nodes| && HoldsPage(nodes[k], lowest, i)
  }

  /** The nodes slob_init makes hold exactly the usable pages of the map it made them from. */
  lemma {:induction false} NodesHoldUsablePages(mm: MemMap, at: nat, lowest: u64, i: int)
    ensures SomeNodeHolds(InitNodes(mm, at), lowest, i) <==> UsablePage(mm, lowest, i)
  {
    if mm != [] {
      var last := |mm| - 1;
      var init := mm[..last];
      var before, nodes := InitNodes(init, at), InitNodes(mm, at);
      NodesHoldUsablePages(init, at, lowest, i);
      assert forall k :: 0 <= k < |before| ==> nodes[k] == before[k];
      assert forall k :: 0 <= k < last ==> mm[k] == init[k];
      if mm[last].usable {
        assert HoldsPage(nodes[|before|], lowest, i) <==> PageIn(mm[last], lowest, i);
      }
    }
  }

  /** After kmem_init and slob_init the bitmap calls a page free if and only if it belongs to the heap's
      table or to one of its regions. */
  lemma BothOwnTheSamePages(mm: MemMap, hhdm: u64, at: nat, i: nat)
    requires Boots(mm) && |Trimmed(mm)| < 0x8000_0000
    requires MemoryMap.FirstFit(Trimmed(mm), TableSize(Trimmed(mm))).Some?
    ensures var s, n := Booted(mm, hhdm), TableSize(Trimmed(mm));
            (i < |s.bits| && !s.bits[i])
            <==> AfterBoot.Carved(mm, n, i) || SomeNodeHolds(InitNodes(Take(Trimmed(mm), n), at), LowestOf(mm), i)
  {
    var n := TableSize(Trimmed(mm));
    AfterBoot.LaterCarveStaysFree(mm, hhdm, n, i);
    NodesHoldUsablePages(Take(Trimmed(mm), n), at, LowestOf(mm), i);
  }
}
