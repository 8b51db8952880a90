/** The page allocator as a state and two operations on it: what kalloc and kfree of src/mem.c
    leave behind.  The class PhysicalMemory is proved against these; every statement about whole
    runs is made here. */
module Pages {
  import opened Machine
  import opened NextFit

  // ---------- Sequences of bits ----------

  /** bits with the n positions from lo on set to v. */
  function Mark(bits: seq<bool>, lo: nat, n: nat, v: bool): (r: seq<bool>)
    ensures |r| == |bits|
    ensures forall i :: 0 <= i < |r| ==> r[i] == if lo <= i < lo + n then v else bits[i]
  {
    seq(|bits|, i requires 0 <= i < |bits| => if lo <= i < lo + n then v else bits[i])
  }

  /** How many bits are clear, that is, how many pages are free. */
  function CountClear(bits: seq<bool>): nat {
    if bits == [] then 0 else CountClear(bits[..|bits| - 1]) + if bits[|bits| - 1] then 0 else 1
  }

  lemma {:induction false} CountClearUpdate(bits: seq<bool>, i: nat, v: bool)
    requires i < |bits|
    ensures CountClear(bits[i := v]) == CountClear(bits) + (if bits[i] then 1 else 0) - (if v then 1 else 0)
  {
    var last := |bits| - 1;
    if i < last {
      CountClearUpdate(bits[..last], i, v);
      assert bits[i := v][..last] == bits[..last][i := v];
    } else {
      assert bits[i := v][..last] == bits[..last];
    }
  }

  /** Marking n pages that all were the other way moves the count by n. */
  lemma {:induction false} CountClearMark(bits: seq<bool>, lo: nat, n: nat, v: bool)
    requires lo + n <= |bits|
    requires forall i :: lo <= i < lo + n ==> bits[i] != v
    ensures CountClear(Mark(bits, lo, n, v)) == CountClear(bits) + (if v then 0 else n) - (if v then n else 0)
  {
    if n == 0 {
      assert Mark(bits, lo, n, v) == bits;
    } else {
      CountClearMark(bits, lo, n - 1, v);
      CountClearUpdate(Mark(bits, lo, n - 1, v), lo + n - 1, v);
      assert Mark(bits, lo, n, v) == Mark(bits, lo, n - 1, v)[lo + n - 1 := v];
    }
  }

  lemma {:induction false} CountClearBound(bits: seq<bool>)
    ensures CountClear(bits) <= |bits|
  {
    if bits != [] {
      CountClearBound(bits[..|bits| - 1]);
    }
  }

  lemma {:induction false} CountClearConcat(a: seq<bool>, b: seq<bool>)
    ensures CountClear(a + b) == CountClear(a) + CountClear(b)
  {
    if b == [] {
      assert a + b == a;
    } else {
      var last := |b| - 1;
      CountClearConcat(a, b[..last]);
      assert (a + b)[..|a| + last] == a + b[..last];
    }
  }

  /** Both ends of the count: none clear, all clear. */
  lemma {:induction false} CountClearExtremes(bits: seq<bool>)
    ensures CountClear(bits) > 0 <==> exists i :: 0 <= i < |bits| && !bits[i]
    ensures CountClear(bits) < |bits| <==> exists i :: 0 <= i < |bits| && bits[i]
  {
    CountClearBound(bits);
    if bits != [] {
      var last := |bits| - 1;
      CountClearExtremes(bits[..last]);
      CountClearBound(bits[..last]);
    }
  }

  /** If as many bits are clear as lie below max, those clear past max are as many as those set below. */
  lemma ClearPastMax(bits: seq<bool>, max: nat)
    requires max <= |bits| && CountClear(bits) == max
    ensures CountClear(bits[max..]) == max - CountClear(bits[..max])
    ensures (exists i :: max <= i < |bits| && !bits[i]) <==> (exists j :: 0 <= j < max && bits[j])
  {
    var low, high := bits[..max], bits[max..];
    assert bits == low + high;
    CountClearConcat(low, high);
    CountClearExtremes(low);
    CountClearExtremes(high);
    assert forall i :: max <= i < |bits| ==> bits[i] == high[i - max];
    assert forall i :: 0 <= i < |high| ==> high[i] == bits[max + i];
    assert forall j :: 0 <= j < max ==> bits[j] == low[j];
  }

  // ---------- The state ----------

  /** The globals of src/mem.c that kalloc and kfree touch; entries[p] is entry_map[p].pages_allocated. */
  datatype PageState = PageState(
    bits: seq<bool>,     // page_bitmap, unpacked
    entries: seq<u32>,   // entry_map
    cursor: nat,         // allocation_cursor
    available: u64,      // num_pages_available
    max: nat,            // max_pages_available
    lowest: u64,         // lowest_address
    hhdm: u64)           // vmm_higher_half_offset

  /** _get_addr_from_page */
  function AddrOf(s: PageState, page: nat): u64 {
    Wrap64(s.lowest + page * PAGE_SIZE + s.hhdm)
  }

  /** _get_page_from_addr */
  function PageOf(s: PageState, addr: u64): nat {
    Wrap64(addr - s.lowest - s.hhdm) / PAGE_SIZE
  }

  /** The tables are large enough for the scan and the scan region fits a 64-bit address space. */
  predicate Sized(s: PageState) {
    && s.cursor < s.max <= |s.bits|
    && s.max <= |s.entries|
    && s.max * PAGE_SIZE <= TWO64
  }

  /** A page index survives the trip through an address exactly when its byte offset is below 2^64. */
  lemma PageAddressRoundTrip(s: PageState, page: nat)
    ensures PageOf(s, AddrOf(s, page)) == page <==> page * PAGE_SIZE < TWO64
  {
  }

  /** Every address inside a page below 2^64 gives that page, and an offset past its end gives another. */
  lemma PageOfAddress(s: PageState, page: nat, off: nat)
    requires page * PAGE_SIZE + off < TWO64
    ensures PageOf(s, Wrap64(s.lowest + page * PAGE_SIZE + off + s.hhdm)) == page <==> off < PAGE_SIZE
  {
  }

  // ---------- The operations ----------

  function PagesFor(numBytes: u64): nat {
    DivRoundUp(numBytes)
  }

  /** kalloc: the state it leaves and the pointer it returns, 0 for failure. */
  function Kalloc(s: PageState, numBytes: u64): (PageState, u64)
    requires Sized(s)
  {
    var n := PagesFor(numBytes);
    var out := RunScan(s.bits, s.max, n, StartScan(s.cursor)).0;
    if out.Found? then (Reserve(s, out.start, n).(cursor := out.cursor), AddrOf(s, out.start))
    else (s.(cursor := 0), 0)
  }

  /** What a successful search does to the tables. */
  function Reserve(s: PageState, p: nat, n: nat): PageState {
    s.(bits := Mark(s.bits, p, n, true),
       entries := if p < |s.entries| then s.entries[p := Wrap32(n)] else s.entries,
       available := Wrap64(s.available - n))
  }

  /** kfree: None is the halt with the lock held. */
  function Kfree(s: PageState, ptr: u64): Option<PageState>
    requires Sized(s)
  {
    var p := PageOf(s, ptr);
    if p >= s.max then None
    else Some(s.(bits := Mark(s.bits, p, s.entries[p], false), entries := s.entries[p := 0]))
  }

  // ---------- The invariant ----------

  /** Page i belongs to the block that starts at p. */
  predicate InBlock(entries: seq<u32>, p: int, i: int) {
    0 <= p < |entries| && p <= i < p + entries[p]
  }

  /** Page i belongs to some block. */
  ghost predicate Covered(entries: seq<u32>, i: int) {
    exists p :: InBlock(entries, p, i)
  }

  /** The blocks lie below max and do not overlap. */
  ghost predicate BlocksApart(entries: seq<u32>, max: nat) {
    && (forall p :: 0 <= p < |entries| && entries[p] > 0 ==> p + entries[p] <= max)
    && (forall p, q :: 0 <= p < q < |entries| && entries[p] > 0 && entries[q] > 0 ==> p + entries[p] <= q)
  }

  /** The pages in use are the reserved ones and, apart from them, those of the blocks. */
  ghost predicate Agree(bits: seq<bool>, entries: seq<u32>, reserved: seq<bool>) {
    && |bits| == |reserved|
    && forall i :: 0 <= i < |bits| ==>
         bits[i] == (reserved[i] || Covered(entries, i)) && !(reserved[i] && Covered(entries, i))
  }

  /** The bitmap and the entry map agree: the pages in use are the reserved ones and, disjoint from
      them and from each other, the blocks of the entry map, all of them below max. */
  ghost predicate Inv(s: PageState, reserved: seq<bool>) {
    Sized(s) && BlocksApart(s.entries, s.max) && Agree(s.bits, s.entries, reserved)
  }

  /** The requests kalloc serves without damage.  Asking for 0 bytes (or for so many that the
      rounding wraps to 0 pages) zeroes entry 0 whenever the page under the cursor is in use; a block
      of 2^32 pages or more does not fit the 32-bit entry, so there must be no room for it. */
  ghost predicate SafeRequest(s: PageState, numBytes: u64)
    requires Sized(s)
  {
    var n := PagesFor(numBytes);
    if n == 0 then !s.bits[s.cursor] || s.entries[0] == 0
    else n < TWO32 || forall q: nat :: !FreeRun(s.bits, q, n, s.max)
  }

  /** Writing an entry where no block starts adds the pages of the new block and no others. */
  lemma CoveredAfterStart(entries: seq<u32>, p: nat, v: u32, i: nat)
    requires p < |entries| && entries[p] == 0
    ensures Covered(entries[p := v], i) <==> Covered(entries, i) || p <= i < p + v
  {
    var after := entries[p := v];
    if p <= i < p + v {
      assert InBlock(after, p, i);
    }
    if Covered(entries, i) {
      var q :| InBlock(entries, q, i);
      assert InBlock(after, q, i);
    }
    if q :| InBlock(after, q, i) && q != p {
      assert InBlock(entries, q, i);
    }
  }

  /** Clearing an entry takes away the pages of its block and no others. */
  lemma CoveredAfterClear(entries: seq<u32>, max: nat, p: nat, i: nat)
    requires p < |entries| && BlocksApart(entries, max)
    ensures Covered(entries[p := 0], i) <==> Covered(entries, i) && !(p <= i < p + entries[p])
  {
    var after := entries[p := 0];
    if q :| InBlock(after, q, i) {
      assert InBlock(entries, q, i);
    }
    if Covered(entries, i) && !(p <= i < p + entries[p]) {
      var q :| InBlock(entries, q, i);
      assert InBlock(after, q, i);
    }
  }

  /** A free page belongs to no block. */
  lemma FreePage(s: PageState, reserved: seq<bool>, p: nat)
    requires Inv(s, reserved) && p < s.max && !s.bits[p]
    ensures !reserved[p] && !Covered(s.entries, p) && s.entries[p] == 0
  {
    assert s.entries[p] > 0 ==> InBlock(s.entries, p, p);
  }

  /** Reserving a free run below max adds a block. */
  lemma ReserveKeepsInv(s: PageState, reserved: seq<bool>, p: nat, n: nat)
    requires Inv(s, reserved)
    requires 0 < n < TWO32 && FreeRun(s.bits, p, n, s.max)
    ensures s.entries[p] == 0
    ensures Inv(Reserve(s, p, n), reserved)
  {
    FreePage(s, reserved, p);
    ReserveKeepsBlocksApart(s, reserved, p, n);
    var t := Reserve(s, p, n);
    forall i | 0 <= i < |t.bits|
      ensures t.bits[i] == (reserved[i] || Covered(t.entries, i)) && !(reserved[i] && Covered(t.entries, i))
    {
      CoveredAfterStart(s.entries, p, n, i);
      if p <= i < p + n {
        FreePage(s, reserved, i);
      }
    }
  }

  lemma ReserveKeepsBlocksApart(s: PageState, reserved: seq<bool>, p: nat, n: nat)
    requires Inv(s, reserved)
    requires 0 < n < TWO32 && FreeRun(s.bits, p, n, s.max)
    ensures BlocksApart(s.entries[p := n], s.max)
  {
    forall q | 0 <= q < |s.entries| && q != p && s.entries[q] > 0
      ensures q + s.entries[q] <= p || p + n <= q
    {
      FreePage(s, reserved, p);
      assert InBlock(s.entries, q, p) <==> q <= p < q + s.entries[q];
      if p < q < p + n {
        FreePage(s, reserved, q);
      }
    }
  }

  /** Freeing at any in-range page keeps the invariant, whether or not a block starts there. */
  lemma KfreeKeepsInv(s: PageState, reserved: seq<bool>, ptr: u64)
    requires Inv(s, reserved)
    requires PageOf(s, ptr) < s.max
    ensures Inv(Kfree(s, ptr).value, reserved)
  {
    var p := PageOf(s, ptr);
    var t := Kfree(s, ptr).value;
    forall i | 0 <= i < |t.bits|
      ensures t.bits[i] == (reserved[i] || Covered(t.entries, i)) && !(reserved[i] && Covered(t.entries, i))
    {
      CoveredAfterClear(s.entries, s.max, p, i);
      assert p <= i < p + s.entries[p] ==> InBlock(s.entries, p, i);
    }
  }

  /** kalloc keeps the invariant exactly for the safe requests. */
  lemma KallocKeepsInv(s: PageState, reserved: seq<bool>, numBytes: u64)
    requires Inv(s, reserved)
    ensures Inv(Kalloc(s, numBytes).0, reserved) <==> SafeRequest(s, numBytes)
  {
    var n := PagesFor(numBytes);
    var out := RunScan(s.bits, s.max, n, StartScan(s.cursor)).0;
    SearchResult(s.bits, s.max, n, s.cursor);
    var t := Kalloc(s, numBytes).0;
    if out.Found? {
      if n == 0 {
        assert t.bits == s.bits;
        if s.entries[0] > 0 {
          // page 0 stays marked and belongs to no block any more
          assert InBlock(s.entries, 0, 0);
          CoveredAfterClear(s.entries, s.max, 0, 0);
        } else {
          assert t.entries == s.entries;
        }
      } else if n < TWO32 {
        ReserveKeepsInv(s, reserved, out.start, n);
        assert t == Reserve(s, out.start, n).(cursor := out.cursor);
      } else {
        KallocTooLong(s, reserved, numBytes);
      }
    }
  }

  /** A block of 2^32 pages or more: its last page is marked but no entry covers it. */
  lemma KallocTooLong(s: PageState, reserved: seq<bool>, numBytes: u64)
    requires Inv(s, reserved)
    requires PagesFor(numBytes) >= TWO32
    requires RunScan(s.bits, s.max, PagesFor(numBytes), StartScan(s.cursor)).0.Found?
    ensures !Inv(Kalloc(s, numBytes).0, reserved)
  {
    var n := PagesFor(numBytes);
    SearchResult(s.bits, s.max, n, s.cursor);
    var p := RunScan(s.bits, s.max, n, StartScan(s.cursor)).0.start;
    var t := Kalloc(s, numBytes).0;
    var last := p + n - 1;
    FreePage(s, reserved, p);
    FreePage(s, reserved, last);
    CoveredAfterStart(s.entries, p, Wrap32(n), last);
  }
}
