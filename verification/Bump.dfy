/** The bump allocator of src/alloc/bump.c over kpalloc. */
module Bump {
  import opened Machine
  import opened NextFit
  import opened Pages
  import opened PageRuns
  import opened PhysicalMemory

  datatype Region = Region(base: nat, len: nat)

  predicate Clear(r: Region, s: Region) {
    Disjoint(r.base, r.len, s.base, s.len)
  }

  predicate Inside(r: Region, s: Region) {
    s.base <= r.base && r.base + r.len <= s.base + s.len
  }

  /** _cursor, the 16-bit _offset, the runs of pages kpalloc has granted and the blocks handed out. */
  datatype Arena = Arena(cursor: nat, offset: nat, grants: seq<Region>, blocks: seq<Region>)

  function EmptyArena(): Arena {
    Arena(0, 0, [], [])
  }

  function Wrap16(x: int): nat {
    if 0 <= x < 0x1_0000 then x else x % 0x1_0000
  }

  // ---------- One request ----------

  /** The pages a request makes bump_malloc ask kpalloc for. */
  function Asks(a: Arena, size: u64): nat {
    var n := DivRoundUp(size);
    if n > 1 then n
    else if a.cursor == 0 || size > Wrap64(PAGE_SIZE - a.offset) then 1
    else 0
  }

  /** bump_malloc, when kpalloc answers with addr if asked. */
  function Serve(a: Arena, size: u64, addr: nat): Arena {
    var n := Asks(a, size);
    if n > 1 then
      Arena(addr + size, Wrap16(n * PAGE_SIZE - size), a.grants + [Region(addr, n * PAGE_SIZE)], a.blocks + [Region(addr, size)])
    else if n == 1 then
      Arena(addr + size, Wrap16(size), a.grants + [Region(addr, PAGE_SIZE)], a.blocks + [Region(addr, size)])
    else
      Arena(a.cursor + size, Wrap16(a.offset + size), a.grants, a.blocks + [Region(a.cursor, size)])
  }

  /** The bytes left over in the last page of a multi-page request. */
  function Spare(size: u64): int {
    DivRoundUp(size) * PAGE_SIZE - size
  }

  /** No wrap in the rounding, and a multi-page request leaves half a page. */
  predicate Sensible(size: u64) {
    size <= TWO64 - PAGE_SIZE && (DivRoundUp(size) > 1 ==> Spare(size) >= PAGE_SIZE / 2)
  }

  /** kpalloc's answer: pages nobody had. */
  predicate FreshGrant(a: Arena, addr: nat, pages: nat) {
    0 < addr && forall i :: 0 <= i < |a.grants| ==> Clear(a.grants[i], Region(addr, pages * PAGE_SIZE))
  }

  /** What bump_malloc believes is left in the page, and what really is. */
  function Believed(a: Arena): int {
    PAGE_SIZE - a.offset
  }

  function Real(a: Arena): int
    requires a.grants != []
  {
    var g := a.grants[|a.grants| - 1];
    g.base + g.len - a.cursor
  }

  // ---------- The invariant ----------

  ghost predicate AllInside(a: Arena) {
    forall i :: 0 <= i < |a.blocks| ==> exists j :: 0 <= j < |a.grants| && Inside(a.blocks[i], a.grants[j])
  }

  predicate Apart(rs: seq<Region>) {
    forall i, j :: 0 <= i < j < |rs| ==> Clear(rs[i], rs[j])
  }

  /** Blocks lie inside grants and do not overlap. */
  ghost predicate Sound(a: Arena) {
    AllInside(a) && Apart(a.blocks) && Apart(a.grants)
  }

  /** Nothing has been handed out past the cursor, and bump_malloc never believes in space that is not there. */
  ghost predicate Ready(a: Arena) {
    && a.offset <= PAGE_SIZE
    && (a.cursor == 0 <==> a.grants == [])
    && (a.grants == [] ==> a.blocks == [])
    && (a.grants != [] ==>
          var g := a.grants[|a.grants| - 1];
          && g.base <= a.cursor && Believed(a) <= Real(a)
          && forall i :: 0 <= i < |a.blocks| ==> Clear(a.blocks[i], Region(a.cursor, Real(a))))
  }

  /** A fresh run of pages meets no block. */
  lemma FreshMissesBlocks(a: Arena, addr: nat, pages: nat)
    requires AllInside(a) && FreshGrant(a, addr, pages)
    ensures forall i :: 0 <= i < |a.blocks| ==> Clear(a.blocks[i], Region(addr, pages * PAGE_SIZE))
  {
  }

  lemma ServeKeepsInside(a: Arena, size: u64, addr: nat)
    requires AllInside(a)
    requires var t := Serve(a, size, addr);
             && t.grants != [] && a.grants <= t.grants
             && Inside(t.blocks[|a.blocks|], t.grants[|t.grants| - 1])
    ensures AllInside(Serve(a, size, addr))
  {
  }

  /** A block at the front of a fresh run of pages, the cursor behind it. */
  lemma GrantKeepsSound(a: Arena, size: u64, addr: nat)
    requires Sound(a) && Ready(a) && Sensible(size)
    requires Asks(a, size) > 0 && FreshGrant(a, addr, Asks(a, size))
    ensures Sound(Serve(a, size, addr)) && Ready(Serve(a, size, addr))
  {
    DivRoundUpIsCeiling(size);
    FreshMissesBlocks(a, addr, Asks(a, size));
    ServeKeepsInside(a, size, addr);
  }

  /** A sensible request leaves the arena sound and ready for the next. */
  lemma ServeKeepsSound(a: Arena, size: u64, addr: nat)
    requires Sound(a) && Ready(a) && Sensible(size)
    requires Asks(a, size) > 0 ==> FreshGrant(a, addr, Asks(a, size))
    ensures Sound(Serve(a, size, addr)) && Ready(Serve(a, size, addr))
  {
    if Asks(a, size) > 0 {
      GrantKeepsSound(a, size, addr);
    } else {
      DivRoundUpIsCeiling(size);
      ServeKeepsInside(a, size, addr);
    }
  }

  /** Half a page is exactly the limit.  After a multi-page request, every next small request is served
      from memory that was granted if and only if at least half a page was spare. */
  lemma HalfPageIsExact(a: Arena, size: u64, addr: nat)
    requires Sound(a) && Ready(a) && 1 < DivRoundUp(size) && size <= TWO64 - PAGE_SIZE
    requires FreshGrant(a, addr, DivRoundUp(size))
    ensures var t := Serve(a, size, addr);
            (forall s: u64 :: s <= PAGE_SIZE && Asks(t, s) == 0 ==> Inside(Region(t.cursor, s), t.grants[|t.grants| - 1]))
            <==> Spare(size) >= PAGE_SIZE / 2
  {
    DivRoundUpIsCeiling(size);
    var t := Serve(a, size, addr);
    var spare := Spare(size);
    assert 0 <= spare < PAGE_SIZE && Real(t) == spare && Believed(t) == PAGE_SIZE - spare;
    if spare < PAGE_SIZE / 2 {
      var s: u64 := spare + 1;
      assert Asks(t, s) == 0 && !Inside(Region(t.cursor, s), t.grants[|t.grants| - 1]);
    }
  }

  /** A request of exactly two pages, say: the next 16 bytes lie wholly behind the grant. */
  lemma WholePagesOverrun(addr: nat)
    requires 0 < addr
    ensures var t := Serve(EmptyArena(), 8192, addr);
            Asks(t, 16) == 0 && Serve(t, 16, 0).blocks[1] == Region(addr + 8192, 16) && t.grants == [Region(addr, 8192)]
  {
  }

  /** A page is used to its end: as long as no request is for more than a page, what bump_malloc believes
      to be left of it is what is left, so it asks for another exactly if the request does not fit. */
  lemma SmallRequestsFillPage(a: Arena, size: u64, addr: nat)
    requires Ready(a) && size <= PAGE_SIZE
    requires a.grants != [] ==> Believed(a) == Real(a)
    ensures a.grants != [] ==> (Asks(a, size) > 0 <==> size > Real(a))
    ensures var t := Serve(a, size, addr); t.grants != [] && Believed(t) == Real(t) && t.offset <= PAGE_SIZE
  {
    DivRoundUpIsCeiling(size);
  }

  // ---------- Runs ----------

  /** A request and what kpalloc would answer to it. */
  datatype Request = Request(size: u64, addr: nat)

  function Exec(rs: seq<Request>): Arena {
    if rs == [] then EmptyArena()
    else Serve(Exec(rs[..|rs| - 1]), rs[|rs| - 1].size, rs[|rs| - 1].addr)
  }

  /** Every request is sensible and every answer of kpalloc is fresh. */
  predicate GoodRun(rs: seq<Request>) {
    rs != [] ==>
      var last := |rs| - 1;
      var a := Exec(rs[..last]);
      && GoodRun(rs[..last]) && Sensible(rs[last].size)
      && (Asks(a, rs[last].size) > 0 ==> FreshGrant(a, rs[last].addr, Asks(a, rs[last].size)))
  }

  /** Over any such run, all blocks ever handed out are disjoint and inside granted pages. */
  lemma {:induction false} RunIsSound(rs: seq<Request>)
    requires GoodRun(rs)
    ensures Sound(Exec(rs)) && Ready(Exec(rs))
  {
    if rs != [] {
      var last := |rs| - 1;
      RunIsSound(rs[..last]);
      ServeKeepsSound(Exec(rs[..last]), rs[last].size, rs[last].addr);
    }
  }

  /** Over any run of requests for at most a page each. */
  lemma {:induction false} SmallRunFillsPages(rs: seq<Request>)
    requires GoodRun(rs) && forall i :: 0 <= i < |rs| ==> rs[i].size <= PAGE_SIZE
    ensures Exec(rs).grants != [] ==> Believed(Exec(rs)) == Real(Exec(rs))
  {
    if rs != [] {
      var last := |rs| - 1;
      SmallRunFillsPages(rs[..last]);
      RunIsSound(rs[..last]);
      SmallRequestsFillPage(Exec(rs[..last]), rs[last].size, rs[last].addr);
    }
  }

  /** The code does not look at a failure of kpalloc.  After one, from any arena, bump_malloc believes in
      a page that ends 4096 bytes from nowhere: the next request is served from it, with the size of the
      failed one as its address, exactly if it fits what is left of that page; for a failed request of
      several pages, what it takes to be left is all but the spare bytes, and for one whose rounding
      wrapped, a whole page. */
  lemma FailurePoisonsCursor(a: Arena, size: u64, next: u64)
    requires Asks(a, size) > 0
    ensures var t := Serve(a, size, 0);
            && (size > TWO64 - PAGE_SIZE ==> (Asks(t, next) == 0 <==> next <= PAGE_SIZE))
            && (DivRoundUp(size) <= 1 && size <= TWO64 - PAGE_SIZE ==> (Asks(t, next) == 0 <==> size > 0 && size + next <= PAGE_SIZE))
            && (DivRoundUp(size) > 1 ==> (Asks(t, next) == 0 <==> next <= PAGE_SIZE - Spare(size)))
            && (Asks(t, next) == 0 ==> Serve(t, next, 0).blocks == a.blocks + [Region(0, size), Region(size, next)])
  {
    DivRoundUpIsCeiling(size);
    assert a.blocks + [Region(0, size)] + [Region(size, next)] == a.blocks + [Region(0, size), Region(size, next)];
  }

  /** A size within a page of 2^64 wraps in the rounding and is served with one page.  Of all requests that
      make bump_malloc ask for pages, the block fits what was asked for exactly if the size does not wrap. */
  lemma WrappedRequestIsServed(a: Arena, size: u64, addr: nat)
    ensures size > TWO64 - PAGE_SIZE && a.offset <= PAGE_SIZE ==> Asks(a, size) == 1
    ensures Asks(a, size) > 0 ==>
              var t := Serve(a, size, addr);
              Inside(t.blocks[|t.blocks| - 1], t.grants[|t.grants| - 1]) <==> size <= TWO64 - PAGE_SIZE
  {
    DivRoundUpIsCeiling(size);
  }

  // ---------- Over the page allocator ----------

  /** Grant i is the block of the entry map that starts at pages[i]. */
  predicate Recorded(s: PageState, grants: seq<Region>, pages: seq<nat>) {
    && |grants| == |pages|
    && forall i :: 0 <= i < |grants| ==>
         && pages[i] < |s.entries| && 0 < s.entries[pages[i]]
         && grants[i] == Region(s.lowest + s.hhdm + pages[i] * PAGE_SIZE, s.entries[pages[i]] * PAGE_SIZE)
  }

  /** What bump_malloc needs of the page allocator. */
  ghost predicate Backed(s: PageState, reserved: seq<bool>, grants: seq<Region>, pages: seq<nat>) {
    && Inv(s, reserved) && DirectMapped(s) && s.max < TWO32 && Recorded(s, grants, pages)
    && s.lowest + s.hhdm + s.max * PAGE_SIZE < TWO64
  }

  lemma BackedMeans(s: PageState, reserved: seq<bool>, grants: seq<Region>, pages: seq<nat>)
    requires Backed(s, reserved, grants, pages)
    ensures Sized(s)
    ensures forall i :: 0 <= i < |grants| ==> grants[i].base + grants[i].len < TWO64
  {
  }

  lemma PagesOfPages(n: nat)
    requires 0 < n && n * PAGE_SIZE <= TWO64 - PAGE_SIZE
    ensures PagesFor(n * PAGE_SIZE) == n
  {
  }

  /** A successful kpalloc is a fresh grant: its block starts where no granted block does, and blocks of
      the entry map do not overlap. */
  lemma KpallocIsFresh(s: PageState, reserved: seq<bool>, a: Arena, pages: seq<nat>, n: nat) returns (p: nat)
    requires Backed(s, reserved, a.grants, pages)
    requires 0 < n && n * PAGE_SIZE <= TWO64 - PAGE_SIZE
    requires Kalloc(s, n * PAGE_SIZE).1 != 0
    ensures var (t, ptr) := Kalloc(s, n * PAGE_SIZE);
            && FreshGrant(a, ptr, n) && ptr + n * PAGE_SIZE < TWO64
            && Backed(t, reserved, a.grants + [Region(ptr, n * PAGE_SIZE)], pages + [p])
  {
    PagesOfPages(n);
    FoundInRange(s.bits, s.max, n, s.cursor);
    var r := KallocIsNextFit(s, reserved, n * PAGE_SIZE);
    p := r.value;
    var t := Kalloc(s, n * PAGE_SIZE).0;
    FreePage(s, reserved, p);
    ReserveKeepsInv(s, reserved, p, n);
    forall i | 0 <= i < |a.grants|
      ensures pages[i] != p && (pages[i] + s.entries[pages[i]] <= p || p + n <= pages[i])
    {
      assert t.entries[pages[i]] > 0 && t.entries[p] > 0;
    }
  }

  lemma FailureKeepsBacked(s: PageState, reserved: seq<bool>, grants: seq<Region>, pages: seq<nat>, n: nat)
    requires Backed(s, reserved, grants, pages)
    requires 0 < n && n * PAGE_SIZE <= TWO64 - PAGE_SIZE
    requires Kalloc(s, n * PAGE_SIZE).1 == 0
    ensures Backed(Kalloc(s, n * PAGE_SIZE).0, reserved, grants, pages)
  {
    hide Kalloc, RunScan;
    PagesOfPages(n);
    var r := KallocIsNextFit(s, reserved, n * PAGE_SIZE);
  }

  class BumpAllocator {
    const pm: Pmm
    var cursor: u64     // _cursor
    var offset: nat     // _offset, 16 bits
    ghost var grants: seq<Region>
    ghost var blocks: seq<Region>
    ghost var pages: seq<nat>
    ghost var reserved: seq<bool>

    constructor (pm: Pmm, ghost reserved: seq<bool>)
      ensures this.pm == pm && this.reserved == reserved && Abs() == EmptyArena() && pages == []
    {
      this.pm, cursor, offset := pm, 0, 0;
      grants, blocks, pages, this.reserved := [], [], [], reserved;
    }

    ghost function Abs(): Arena
      reads this
    {
      Arena(cursor, offset, grants, blocks)
    }

    ghost predicate Valid()
      reads this, pm, pm.bitmap, pm.entryMap
    {
      && Sound(Abs()) && Ready(Abs())
      && pm.Separate() && !pm.locked && Backed(pm.State(), reserved, grants, pages)
    }

    /** kpalloc for this allocator; on success the grant is on record. */
    method AskPages(n: u64) returns (addr: u64)
      requires Valid() && 0 < n && n * PAGE_SIZE <= TWO64 - PAGE_SIZE
      modifies this`grants, this`pages, pm`cursor, pm`available, pm`locked, pm.bitmap, pm.entryMap
      ensures pm.Separate() && !pm.locked
      ensures addr == 0 ==> grants == old(grants) && pages == old(pages)
      ensures addr != 0 ==>
                && FreshGrant(old(Abs()), addr, n) && addr + n * PAGE_SIZE < TWO64
                && grants == old(grants) + [Region(addr, n * PAGE_SIZE)]
      ensures Backed(pm.State(), reserved, grants, pages)
    {
      hide Backed, Kalloc, FreshGrant, Sound, Ready;
      ghost var s, a, ps := pm.State(), Abs(), pages;
      BackedMeans(s, reserved, grants, ps);
      addr := pm.KPAlloc(n);
      if addr != 0 {
        ghost var p := KpallocIsFresh(s, reserved, a, ps, n);
        grants, pages := grants + [Region(addr, n * PAGE_SIZE)], pages + [p];
      } else {
        FailureKeepsBacked(s, reserved, a.grants, ps, n);
      }
    }

    /** bump_malloc.  False when kpalloc failed, which the code does not notice; otherwise the block is
        new, and after a sensible request the arena is as sound as before.  A size whose rounding wraps is
        served with the one page asked for last. */
    method BumpMalloc(size: u64) returns (ok: bool, ptr: u64)
      requires Valid()
      modifies this`cursor, this`offset, this`grants, this`blocks, this`pages
      modifies pm`cursor, pm`available, pm`locked, pm.bitmap, pm.entryMap
      ensures ok && size <= TWO64 - PAGE_SIZE ==> Abs() == Serve(old(Abs()), size, ptr)
      ensures ok && size > TWO64 - PAGE_SIZE ==> WrappedServed(old(grants), size, ptr)
      ensures ok ==> blocks == old(blocks) + [Region(ptr, size)]
      ensures ok && Sensible(size) ==> Valid()
      ensures Asks(old(Abs()), size) == 0 ==> ok
      ensures !ok ==> ptr == 0 && cursor == size && (size <= TWO64 - PAGE_SIZE ==> grants == old(grants))
    {
      DivRoundUpIsCeiling(size);
      var numPages := DivRoundUp(size);
      if numPages > 1 {
        ok, ptr := ServePages(size, numPages);
      } else {
        ok, ptr := ServeSmall(size);
      }
    }

    /** The branch for more than one page. */
    method ServePages(size: u64, numPages: u64) returns (ok: bool, ptr: u64)
      requires Valid() && size <= TWO64 - PAGE_SIZE && numPages == DivRoundUp(size) > 1
      modifies this`cursor, this`offset, this`grants, this`blocks, this`pages
      modifies pm`cursor, pm`available, pm`locked, pm.bitmap, pm.entryMap
      ensures ok ==> Abs() == Serve(old(Abs()), size, ptr) && blocks == old(blocks) + [Region(ptr, size)]
      ensures ok && Sensible(size) ==> Valid()
      ensures !ok ==> ptr == 0 && cursor == size && grants == old(grants)
    {
      hide Backed, FreshGrant, Sound, Ready;
      ghost var a := Abs();
      DivRoundUpIsCeiling(size);
      ptr := AskPages(numPages);
      offset := Wrap16(numPages * PAGE_SIZE - size);
      cursor := Wrap64(ptr + size);
      blocks := blocks + [Region(ptr, size)];
      ok := ptr != 0;
      if ok && Sensible(size) {
        ServeKeepsSound(a, size, ptr);
      }
    }

    /** What a size that wraps leaves: a page, of which the cursor and the offset know nothing. */
    ghost predicate WrappedServed(before: seq<Region>, size: u64, ptr: u64)
      reads this
    {
      && before < grants && grants[|grants| - 1] == Region(ptr, PAGE_SIZE)
      && cursor == Wrap64(ptr + size) && offset == Wrap16(size)
    }

    /** The rest of bump_malloc. */
    method ServeSmall(size: u64) returns (ok: bool, ptr: u64)
      requires Valid() && DivRoundUp(size) <= 1
      modifies this`cursor, this`offset, this`grants, this`blocks, this`pages
      modifies pm`cursor, pm`available, pm`locked, pm.bitmap, pm.entryMap
      ensures ok && size <= TWO64 - PAGE_SIZE ==> Abs() == Serve(old(Abs()), size, ptr)
      ensures ok && size > TWO64 - PAGE_SIZE ==> WrappedServed(old(grants), size, ptr)
      ensures ok ==> blocks == old(blocks) + [Region(ptr, size)]
      ensures ok && Sensible(size) ==> Valid()
      ensures Asks(old(Abs()), size) == 0 ==> ok
      ensures !ok ==> ptr == 0 && cursor == size && (size <= TWO64 - PAGE_SIZE ==> grants == old(grants))
    {
      hide Backed, FreshGrant, Sound, Ready;
      ghost var a := Abs();
      DivRoundUpIsCeiling(size);
      ok := true;
      if cursor == 0 {
        ok := FirstPage();
      }
      CursorFits(pm.State(), reserved, Abs(), pages, size);
      if size > Wrap64(PAGE_SIZE - offset) {
        var page := AskPages(1);
        ok := page != 0;
        cursor := page;
        offset := 0;
      }
      ptr := cursor;
      cursor := Wrap64(cursor + size);
      offset := Wrap16(offset + size);
      blocks := blocks + [Region(ptr, size)];
      if ok && size <= TWO64 - PAGE_SIZE {
        ServeKeepsSound(a, size, ptr);
      }
    }

    /** The first allocation of all: a page to work in. */
    method FirstPage() returns (ok: bool)
      requires Valid() && cursor == 0
      modifies this`cursor, this`offset, this`grants, this`pages
      modifies pm`cursor, pm`available, pm`locked, pm.bitmap, pm.entryMap
      ensures Valid() && offset == 0 && blocks == old(blocks)
      ensures ok <==> cursor != 0
      ensures grants == if ok then old(grants) + [Region(cursor, PAGE_SIZE)] else old(grants)
      ensures ok ==> FreshGrant(old(Abs()), cursor, 1)
    {
      hide Backed, FreshGrant, Sound, Ready;
      ghost var a := Abs();
      var page := AskPages(1);
      cursor := page;
      offset := 0;
      ok := page != 0;
      FirstPageIsReady(a, page);
    }
  }

  lemma FirstPageIsReady(a: Arena, page: nat)
    requires Sound(a) && Ready(a) && a.cursor == 0
    ensures var t := if page != 0 then Arena(page, 0, a.grants + [Region(page, PAGE_SIZE)], a.blocks) else a.(offset := 0);
            Sound(t) && Ready(t)
  {
  }

  /** What fits the page fits the address space. */
  lemma CursorFits(s: PageState, reserved: seq<bool>, a: Arena, pages: seq<nat>, size: u64)
    requires Backed(s, reserved, a.grants, pages) && Ready(a)
    ensures a.offset <= PAGE_SIZE
    ensures Asks(a, size) == 0 ==> a.cursor + size < TWO64
  {
  }
}
