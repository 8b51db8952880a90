/** Machine words and the rounding macros of src/include/math.h.  A word is a bounded
    integer; every place where C arithmetic can wrap goes through Wrap64. */
module Machine {
  const TWO32: int := 0x1_0000_0000
  const TWO64: int := 0x1_0000_0000_0000_0000
  const PAGE_SIZE: int := 4096

  type byte = x: int | 0 <= x < 256
  type u32 = x: int | 0 <= x < 0x1_0000_0000
  type u64 = x: int | 0 <= x < 0x1_0000_0000_0000_0000

  /** The n bytes from a on and the k bytes from b on have nothing in common. */
  predicate Disjoint(a: int, n: int, b: int, k: int) {
    a + n <= b || b + k <= a
  }

  datatype Option<+T> = None | Some(value: T)

  /** The value a 64-bit register holds after computing x. */
  function Wrap64(x: int): u64 {
    if 0 <= x < TWO64 then x else x % TWO64
  }

  /** The value stored in a 32-bit field that is assigned x. */
  function Wrap32(x: int): u32 {
    if 0 <= x < TWO32 then x else x % TWO32
  }

  /** Both drop whole multiples of the range and nothing else. */
  lemma WrapIsModulo(x: int)
    ensures exists q: int :: x == Wrap64(x) + q * TWO64
    ensures exists q: int :: x == Wrap32(x) + q * TWO32
  {
    assert x == Wrap64(x) + (x / TWO64) * TWO64;
    assert x == Wrap32(x) + (x / TWO32) * TWO32;
  }

  /** DIV_ROUNDUP by the page size, the only divisor the allocators use: the addition wraps before
      the division. */
  function DivRoundUp(val: u64): u64 {
    Wrap64(val + PAGE_SIZE - 1) / PAGE_SIZE
  }

  /** ALIGN_UP to a page. */
  function AlignUpPage(val: u64): (r: u64)
    ensures r % PAGE_SIZE == 0
  {
    DivRoundUp(val) * PAGE_SIZE
  }

  /** ALIGN_UP is that many pages. */
  lemma AlignUpIsPages(val: u64)
    ensures AlignUpPage(val) / PAGE_SIZE == DivRoundUp(val)
  {
  }

  /** k pages are the fewest that hold val bytes. */
  ghost predicate IsPageCount(val: nat, k: nat) {
    k * PAGE_SIZE >= val && (k > 0 ==> (k - 1) * PAGE_SIZE < val)
  }

  /** DIV_ROUNDUP rounds up exactly for the values whose addition does not wrap; for all others
      it yields 0, which is wrong. */
  lemma DivRoundUpIsCeiling(val: u64)
    ensures IsPageCount(val, DivRoundUp(val)) <==> val <= TWO64 - PAGE_SIZE
    ensures val > TWO64 - PAGE_SIZE ==> DivRoundUp(val) == 0
  {
  }
}
