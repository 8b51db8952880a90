/** The page scan of kalloc (src/mem.c:374-438): the loop, one iteration at a time, and the
    next-fit search it is supposed to be.  A bit that is true marks a page in use. */
module NextFit {
  import opened Machine

  // ---------- What is looked for ----------

  /** n pages from p on are free and lie below max. */
  ghost predicate FreeRun(bits: seq<bool>, p: nat, n: nat, max: nat)
    requires max <= |bits|
  {
    p + n <= max && forall i :: p <= i < p + n ==> !bits[i]
  }

  /** r is the least start of a free run of n pages at or after lo, or None when there is none. */
  ghost predicate IsLeastRun(bits: seq<bool>, lo: nat, n: nat, max: nat, r: Option<nat>)
    requires max <= |bits|
  {
    if r.Some? then
      lo <= r.value && FreeRun(bits, r.value, n, max) && forall q :: lo <= q < r.value ==> !FreeRun(bits, q, n, max)
    else
      forall q :: lo <= q ==> !FreeRun(bits, q, n, max)
  }

  /** Next fit: the least run at or after the cursor; failing that, the least run of all. */
  ghost predicate IsNextFit(bits: seq<bool>, cursor: nat, n: nat, max: nat, r: Option<nat>)
    requires max <= |bits|
  {
    || (r.Some? && IsLeastRun(bits, cursor, n, max, r))
    || (IsLeastRun(bits, cursor, n, max, None) && IsLeastRun(bits, 0, n, max, r))
  }

  /** Next fit names one answer. */
  lemma NextFitUnique(bits: seq<bool>, cursor: nat, n: nat, max: nat, r: Option<nat>, r': Option<nat>)
    requires max <= |bits|
    requires IsNextFit(bits, cursor, n, max, r) && IsNextFit(bits, cursor, n, max, r')
    ensures r == r'
  {
  }

  // ---------- The loop ----------

  /** The variables of the loop; cursor is the global allocation_cursor. */
  datatype Scan = Scan(cursor: nat, start: nat, count: nat, looped: bool, allocating: bool)

  datatype Outcome =
    | More(scan: Scan)
    | Found(start: nat, cursor: nat)  // the run begins at start; the cursor has moved past it
    | NoFit                           // the cursor is back at 0

  function StartScan(cursor: nat): Scan {
    Scan(cursor, 0, 0, false, false)
  }

  /** The cursor one page on, back at 0 past the last page. */
  function Advance(cursor: nat, max: nat): nat {
    if cursor + 1 == max then 0 else cursor + 1
  }

  /** start, count and allocating after looking at the page under the cursor. */
  function Look(taken: bool, s: Scan): Scan {
    if !s.allocating then
      if !taken then s.(start := s.cursor, allocating := true, count := 1) else s
    else if taken then s.(allocating := false)
    else s.(count := s.count + 1)
  }

  /** One iteration of the loop. */
  function Iterate(bits: seq<bool>, max: nat, n: nat, s: Scan): Outcome
    requires s.cursor < |bits|
  {
    var t := Look(bits[s.cursor], s);
    if t.count == n then Found(t.start, Advance(t.cursor, max))
    else if t.cursor + 1 == max then
      if t.looped then NoFit else More(t.(cursor := 0, looped := true, allocating := false))
    else More(t.(cursor := t.cursor + 1))
  }

  /** Iterations left at most: the rest of this pass and, on the first, a whole second one. */
  function Remaining(s: Scan, max: nat): nat
    requires s.cursor <= max
  {
    max - s.cursor + if s.looped then 0 else max
  }

  /** The loop run to its end, with the number of bits it tests. */
  function RunScan(bits: seq<bool>, max: nat, n: nat, s: Scan): (r: (Outcome, nat))
    requires s.cursor < max <= |bits|
    ensures !r.0.More?
    ensures r.0.Found? ==> r.0.cursor < max
    ensures r.1 <= Remaining(s, max)
    decreases Remaining(s, max)
  {
    match Iterate(bits, max, n, s)
    case More(t) => var (out, tests) := RunScan(bits, max, n, t); (out, tests + 1)
    case out => (out, 1)
  }

  /** The loop's answer does not depend on where in the run one looks. */
  lemma RunScanStep(bits: seq<bool>, max: nat, n: nat, s: Scan)
    requires s.cursor < max <= |bits|
    ensures var out := Iterate(bits, max, n, s);
            && RunScan(bits, max, n, s).0 == (if out.More? then RunScan(bits, max, n, out.scan).0 else out)
            && (out.More? ==> out.scan.cursor < max && Remaining(out.scan, max) < Remaining(s, max))
  {
  }

  // ---------- Why the loop is next fit ----------

  /** The answer is next fit and the cursor is just past the run, or at 0. */
  ghost predicate AnswersNextFit(bits: seq<bool>, c0: nat, n: nat, max: nat, out: Outcome)
    requires max <= |bits|
  {
    if out.Found? then
      IsNextFit(bits, c0, n, max, Some(out.start)) && out.cursor == (if out.start + n == max then 0 else out.start + n)
    else
      out.NoFit? && IsNextFit(bits, c0, n, max, None)
  }

  /** What holds at the head of every iteration of a search for n > 0 pages begun at cursor c0. */
  ghost predicate ScanInv(bits: seq<bool>, max: nat, n: nat, c0: nat, s: Scan)
    requires max <= |bits|
  {
    var lo := if s.looped then 0 else c0;
    var seen := if s.allocating then s.start else s.cursor;
    && c0 < max && s.cursor < max && lo <= seen
    && (forall q :: lo <= q < seen ==> !FreeRun(bits, q, n, max))
    && (s.looped ==> forall q :: c0 <= q ==> !FreeRun(bits, q, n, max))
    && s.count < n
    && (s.allocating ==>
          && 0 < s.count && s.start + s.count == s.cursor
          && forall i :: s.start <= i < s.cursor ==> !bits[i])
  }

  lemma IterateKeepsInv(bits: seq<bool>, max: nat, n: nat, c0: nat, s: Scan)
    requires max <= |bits| && 0 < n
    requires ScanInv(bits, max, n, c0, s)
    ensures var out := Iterate(bits, max, n, s);
            if out.More? then ScanInv(bits, max, n, c0, out.scan) else AnswersNextFit(bits, c0, n, max, out)
  {
    var t := Look(bits[s.cursor], s);
    if bits[s.cursor] {
      // a run that starts at or before the taken page and after the last look would contain it
      forall q | (if s.allocating then s.start else s.cursor) <= q <= s.cursor
        ensures !FreeRun(bits, q, n, max)
      {
        assert q <= s.cursor < q + n;
      }
    }
    if t.count != n && t.cursor + 1 == max && t.allocating {
      // the pass ends inside a free stretch that is too short
      forall q | t.start <= q ensures !FreeRun(bits, q, n, max) {
      }
    }
    if t.count == n && s.looped {
      assert IsLeastRun(bits, c0, n, max, None);
      assert IsLeastRun(bits, 0, n, max, Some(t.start));
    }
  }

  lemma {:induction false} RunScanIsNextFit(bits: seq<bool>, max: nat, n: nat, c0: nat, s: Scan)
    requires max <= |bits| && 0 < n
    requires ScanInv(bits, max, n, c0, s)
    ensures AnswersNextFit(bits, c0, n, max, RunScan(bits, max, n, s).0)
    decreases Remaining(s, max)
  {
    IterateKeepsInv(bits, max, n, c0, s);
    match Iterate(bits, max, n, s)
    case More(t) => RunScanIsNextFit(bits, max, n, c0, t);
    case _ =>
  }

  /** For zero pages the loop compares a count of 0 once, before it has looked at any free page. */
  lemma {:induction false} RunScanForNothing(bits: seq<bool>, max: nat, s: Scan)
    requires s.cursor < max <= |bits|
    requires s.count > 0
    ensures RunScan(bits, max, 0, s).0 == NoFit
    decreases Remaining(s, max)
  {
    match Iterate(bits, max, 0, s)
    case More(t) => RunScanForNothing(bits, max, t);
    case _ =>
  }

  /** The bits a search begun at c0 has tested when it stands at s. */
  function TestsSoFar(max: nat, c0: nat, s: Scan): int {
    if s.looped then max - c0 + s.cursor else s.cursor - c0
  }

  /** How many it tests in all: every page from the cursor to the end of the run, or to max and from 0 on
      if it had to wrap; two whole passes less the start if there is none. */
  function TestsInAll(max: nat, n: nat, c0: nat, out: Outcome): int {
    if !out.Found? then max - c0 + max
    else if out.start >= c0 then out.start + n - c0
    else max - c0 + out.start + n
  }

  lemma {:induction false} RunScanTests(bits: seq<bool>, max: nat, n: nat, c0: nat, s: Scan)
    requires max <= |bits| && 0 < n
    requires ScanInv(bits, max, n, c0, s)
    ensures var (out, tests) := RunScan(bits, max, n, s);
            TestsSoFar(max, c0, s) + tests == TestsInAll(max, n, c0, out)
    decreases Remaining(s, max)
  {
    hide FreeRun, AnswersNextFit;
    IterateKeepsInv(bits, max, n, c0, s);
    FoundBeforeStart(bits, max, n, c0, s);
    match Iterate(bits, max, n, s)
    case More(t) => RunScanTests(bits, max, n, c0, t);
    case _ =>
  }

  /** A run the second pass finds starts before c0. */
  lemma FoundBeforeStart(bits: seq<bool>, max: nat, n: nat, c0: nat, s: Scan)
    requires max <= |bits| && 0 < n
    requires ScanInv(bits, max, n, c0, s)
    ensures var out := Iterate(bits, max, n, s);
            out.Found? ==> out.start + n == s.cursor + 1 && (if s.looped then out.start < c0 else c0 <= out.start)
  {
    var t := Look(bits[s.cursor], s);
    if t.count == n {
      assert FreeRun(bits, t.start, n, max);
    }
  }

  /** For no pages at all: once, or every page of both passes. */
  lemma {:induction false} NothingTests(bits: seq<bool>, max: nat, s: Scan)
    requires s.cursor < max <= |bits| && s.count > 0
    ensures RunScan(bits, max, 0, s).1 == Remaining(s, max)
    decreases Remaining(s, max)
  {
    match Iterate(bits, max, 0, s)
    case More(t) => NothingTests(bits, max, t);
    case _ =>
  }

  /** The search as the caller sees it.  For n > 0 it is next fit and complete: it fails only when
      no run of n free pages exists below max, no run spans the wrap, the cursor ends just past the run,
      or at 0, and the bits tested are exactly those on the way.  For n == 0 it "finds" page 0 exactly when the page under the cursor is taken. */
  lemma SearchResult(bits: seq<bool>, max: nat, n: nat, c0: nat)
    requires c0 < max <= |bits|
    ensures var (out, tests) := RunScan(bits, max, n, StartScan(c0));
            && tests == (if n > 0 then TestsInAll(max, n, c0, out) else if bits[c0] then 1 else 2 * max - c0)
            && tests <= 2 * max - c0
            && (n > 0 ==> AnswersNextFit(bits, c0, n, max, out))
            && (n > 0 && out.NoFit? ==> forall q: nat :: !FreeRun(bits, q, n, max))
            && (n == 0 ==> out == if bits[c0] then Found(0, Advance(c0, max)) else NoFit)
  {
    if n > 0 {
      RunScanIsNextFit(bits, max, n, c0, StartScan(c0));
      RunScanTests(bits, max, n, c0, StartScan(c0));
    } else if !bits[c0] {
      match Iterate(bits, max, 0, StartScan(c0))
      case More(t) =>
        RunScanForNothing(bits, max, t);
        NothingTests(bits, max, t);
      case _ =>
    }
  }

  lemma FoundInRange(bits: seq<bool>, max: nat, n: nat, c0: nat)
    requires c0 < max <= |bits|
    ensures var out := RunScan(bits, max, n, StartScan(c0)).0;
            out.Found? ==> out.start < max && out.start + n <= max && FreeRun(bits, out.start, n, max)
  {
    SearchResult(bits, max, n, c0);
  }

  // ---------- A cursor at or past max ----------

  /** The same loop begun at or past max: the test for the end is an equality, so the cursor never comes
      back.  None is a read past the bits. */
  function ScanPast(bits: seq<bool>, max: nat, n: nat, s: Scan): (r: Option<Outcome>)
    requires max <= s.cursor
    ensures r.Some? ==> !r.value.More?
    decreases |bits| - s.cursor
  {
    if s.cursor >= |bits| then None
    else
      match Iterate(bits, max, n, s)
      case More(t) => ScanPast(bits, max, n, t)
      case out => Some(out)
  }

  /** It ends at the least run from the first cursor on, all of it at or past max, and if there is none it
      reads past the bits. */
  lemma {:induction false} ScanPastIsLeastRun(bits: seq<bool>, max: nat, n: nat, c0: nat, s: Scan)
    requires max <= s.cursor && 0 < n && !s.looped
    requires ScanInv(bits, |bits|, n, c0, s)
    ensures var r := ScanPast(bits, max, n, s);
            if r.Some? then
              && r.value.Found? && r.value.cursor == r.value.start + n
              && IsLeastRun(bits, c0, n, |bits|, Some(r.value.start))
            else IsLeastRun(bits, c0, n, |bits|, None)
    decreases |bits| - s.cursor
  {
    IterateKeepsInv(bits, |bits|, n, c0, s);
    var t := Look(bits[s.cursor], s);
    if t.count != n && s.cursor + 1 < |bits| {
      ScanPastIsLeastRun(bits, max, n, c0, t.(cursor := t.cursor + 1));
    }
  }
}
