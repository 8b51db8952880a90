/** Several CPUs calling kalloc and kfree at once.  Each step of the machine is one CPU doing one
    thing: a test-and-set on the lock (src/include/atomic.h:27-37), one iteration of a loop, one write
    to a table, the release.  What one CPU does inside the lock, seen from outside, is a single call. */
module Smp {
  import opened Machine
  import opened NextFit
  import opened Pages
  import opened PageRuns

  // ---------- The machine ----------

  /** Where a CPU stands in kalloc (src/mem.c:370-446) or kfree (src/mem.c:482-502). */
  datatype Cpu =
    | Idle
    | WantAlloc(numBytes: u64)                                                   // spinning
    | Scanning(numBytes: u64, start: nat, count: nat, looped: bool, allocating: bool)
    | Reserving(numBytes: u64, start: nat, next: nat)                            // marking page next
    | Recording(numBytes: u64, start: nat)                                       // writing the entry
    | Counting(numBytes: u64, start: nat)                                        // adjusting the counter
    | Returning(numBytes: u64, ptr: u64)                                         // about to unlock
    | WantFree(ptr: u64)                                                         // spinning
    | Locating(ptr: u64)                                                         // the range check
    | Clearing(ptr: u64, next: nat)                                              // clearing page next
    | Erasing(ptr: u64)                                                          // zeroing the entry
    | Leaving(ptr: u64)                                                          // about to unlock
    | Halted(ptr: u64)                                                           // hcf, lock held
  {
    /** Between taking the lock and releasing it. */
    predicate Inside() {
      !Idle? && !WantAlloc? && !WantFree?
    }
  }

  /** A finished call: who made it, what it was, and what kalloc returned (0 for kfree). */
  datatype Event = Event(cpu: nat, op: Op, ptr: u64)

  datatype Sys = Sys(lock: bool, mem: PageState, cpus: seq<Cpu>, log: seq<Event>)

  /** One step inside the lock, up to but not including the release. */
  function StepInside(m: PageState, c: Cpu): (r: (PageState, Cpu))
    requires Sized(m)
    ensures Sized(r.0)
  {
    match c
    case Scanning(nb, start, count, looped, allocating) =>
      (match Iterate(m.bits, m.max, PagesFor(nb), Scan(m.cursor, start, count, looped, allocating))
       case More(t) =>
         (m.(cursor := if t.cursor < m.max then t.cursor else 0), Scanning(nb, t.start, t.count, t.looped, t.allocating))
       case Found(p, cursor) => (m.(cursor := if cursor < m.max then cursor else 0), Reserving(nb, p, p))
       case NoFit => (m.(cursor := 0), Returning(nb, 0)))
    case Reserving(nb, start, next) =>
      if next < start + PagesFor(nb) then (m.(bits := Mark(m.bits, next, 1, true)), Reserving(nb, start, next + 1))
      else (m, Recording(nb, start))
    case Recording(nb, start) =>
      (m.(entries := if start < |m.entries| then m.entries[start := Wrap32(PagesFor(nb))] else m.entries), Counting(nb, start))
    case Counting(nb, start) => (m.(available := Wrap64(m.available - PagesFor(nb))), Returning(nb, AddrOf(m, start)))
    case Locating(ptr) => if PageOf(m, ptr) >= m.max then (m, Halted(ptr)) else (m, Clearing(ptr, PageOf(m, ptr)))
    case Clearing(ptr, next) =>
      var p := PageOf(m, ptr);
      if p < |m.entries| && next < p + m.entries[p] then (m.(bits := Mark(m.bits, next, 1, false)), Clearing(ptr, next + 1))
      else (m, Erasing(ptr))
    case Erasing(ptr) =>
      var p := PageOf(m, ptr);
      (m.(entries := if p < |m.entries| then m.entries[p := 0] else m.entries), Leaving(ptr))
    case _ => (m, c)
  }

  /** CPU c takes a step; op is the call it makes if it is idle. */
  function Step(s: Sys, c: nat, op: Op): (r: Sys)
    requires Sized(s.mem) && c < |s.cpus|
    ensures Sized(r.mem) && |r.cpus| == |s.cpus|
  {
    match s.cpus[c]
    case Idle => s.(cpus := s.cpus[c := match op case Alloc(nb) => WantAlloc(nb) case Free(ptr) => WantFree(ptr)])
    case WantAlloc(nb) => if s.lock then s else s.(lock := true, cpus := s.cpus[c := Scanning(nb, 0, 0, false, false)])
    case WantFree(ptr) => if s.lock then s else s.(lock := true, cpus := s.cpus[c := Locating(ptr)])
    case Returning(nb, ptr) => s.(lock := false, cpus := s.cpus[c := Idle], log := s.log + [Event(c, Alloc(nb), ptr)])
    case Leaving(ptr) => s.(lock := false, cpus := s.cpus[c := Idle], log := s.log + [Event(c, Free(ptr), 0)])
    case _ =>
      var (m, d) := StepInside(s.mem, s.cpus[c]);
      s.(mem := m, cpus := s.cpus[c := d])
  }

  datatype Turn = Turn(cpu: nat, op: Op)

  /** A schedule names CPUs that exist. */
  predicate Schedule(turns: seq<Turn>, n: nat) {
    forall i :: 0 <= i < |turns| ==> turns[i].cpu < n
  }

  /** Every call it has in store is ordinary. */
  predicate OrdinaryTurns(turns: seq<Turn>) {
    forall i :: 0 <= i < |turns| && turns[i].op.Alloc? ==> Ordinary(turns[i].op.numBytes)
  }

  predicate Ordinary(numBytes: u64) {
    0 < numBytes <= TWO64 - PAGE_SIZE
  }

  /** The machine after a schedule. */
  function Run(s: Sys, turns: seq<Turn>): (r: Sys)
    requires Sized(s.mem) && Schedule(turns, |s.cpus|)
    ensures Sized(r.mem) && |r.cpus| == |s.cpus|
  {
    if turns == [] then s
    else
      var last := |turns| - 1;
      Step(Run(s, turns[..last]), turns[last].cpu, turns[last].op)
  }

  /** n idle CPUs over an allocator nobody is using. */
  function Boot(m: PageState, n: nat): Sys {
    Sys(false, m, seq(n, i => Idle), [])
  }

  // ---------- The sequential machine it behaves like ----------

  function Calls(log: seq<Event>): (ops: seq<Op>)
    ensures |ops| == |log|
  {
    seq(|log|, i requires 0 <= i < |log| => log[i].op)
  }

  lemma CallsAppend(log: seq<Event>, e: Event)
    ensures Calls(log + [e])[..|log|] == Calls(log) && Calls(log + [e])[|log|] == e.op
  {
  }

  /** The log is a run of the sequential allocator in which every kalloc returned what the sequential
      kalloc returns at that point. */
  predicate Sequential(m0: PageState, log: seq<Event>)
    requires Sized(m0)
  {
    log != [] ==>
      var last := |log| - 1;
      && Sequential(m0, log[..last])
      && Exec(m0, Calls(log)).Some? && Exec(m0, Calls(log[..last])).Some?
      && (log[last].op.Alloc? ==> log[last].ptr == Kalloc(Exec(m0, Calls(log[..last])).value, log[last].op.numBytes).1)
  }

  predicate OrdinaryLog(log: seq<Event>) {
    forall i :: 0 <= i < |log| && log[i].op.Alloc? ==> Ordinary(log[i].op.numBytes)
  }

  /** What the CPU inside the lock has done so far, relative to the state m in which it took the lock. */
  ghost predicate HolderInv(m: PageState, mem: PageState, c: Cpu)
    requires Sized(m) && Sized(mem)
  {
    match c
    case Scanning(nb, start, count, looped, allocating) =>
      && mem == m.(cursor := mem.cursor)
      && RunScan(m.bits, m.max, PagesFor(nb), Scan(mem.cursor, start, count, looped, allocating)).0
         == RunScan(m.bits, m.max, PagesFor(nb), StartScan(m.cursor)).0
    case Reserving(nb, start, next) =>
      && RunScan(m.bits, m.max, PagesFor(nb), StartScan(m.cursor)).0 == Found(start, mem.cursor)
      && start <= next <= start + PagesFor(nb)
      && mem == m.(cursor := mem.cursor, bits := Mark(m.bits, start, next - start, true))
    case Recording(nb, start) =>
      && RunScan(m.bits, m.max, PagesFor(nb), StartScan(m.cursor)).0 == Found(start, mem.cursor)
      && mem == m.(cursor := mem.cursor, bits := Mark(m.bits, start, PagesFor(nb), true))
    case Counting(nb, start) =>
      && RunScan(m.bits, m.max, PagesFor(nb), StartScan(m.cursor)).0 == Found(start, mem.cursor)
      && mem == Reserve(m, start, PagesFor(nb)).(cursor := mem.cursor, available := m.available)
    case Returning(nb, ptr) => mem == Kalloc(m, nb).0 && ptr == Kalloc(m, nb).1
    case Locating(ptr) => mem == m
    case Clearing(ptr, next) =>
      var p := PageOf(m, ptr);
      && p < m.max && p <= next <= p + m.entries[p]
      && mem == m.(bits := Mark(m.bits, p, next - p, false))
    case Erasing(ptr) =>
      var p := PageOf(m, ptr);
      p < m.max && mem == m.(bits := Mark(m.bits, p, m.entries[p], false))
    case Leaving(ptr) => Kfree(m, ptr) == Some(mem)
    case Halted(ptr) => mem == m && Kfree(m, ptr) == None
    case _ => false
  }

  /** What the CPU wants next is ordinary. */
  predicate Sensible(c: Cpu) {
    match c
    case WantAlloc(nb) => Ordinary(nb)
    case Scanning(nb, _, _, _, _) => Ordinary(nb)
    case Reserving(nb, _, _) => Ordinary(nb)
    case Recording(nb, _) => Ordinary(nb)
    case Counting(nb, _) => Ordinary(nb)
    case Returning(nb, _) => Ordinary(nb)
    case _ => true
  }

  /** The lock is held by exactly one CPU, and the memory is what the log says, plus what that CPU has
      done since it took the lock. */
  ghost predicate Good(m0: PageState, s: Sys)
    requires Sized(m0)
  {
    && Sized(s.mem)
    && Sequential(m0, s.log) && Exec(m0, Calls(s.log)).Some?
    && (forall c, d :: 0 <= c < d < |s.cpus| ==> !(s.cpus[c].Inside() && s.cpus[d].Inside()))
    && (s.lock <==> exists c :: 0 <= c < |s.cpus| && s.cpus[c].Inside())
    && (!s.lock ==> s.mem == Exec(m0, Calls(s.log)).value)
    && (forall c :: 0 <= c < |s.cpus| && s.cpus[c].Inside() ==> HolderInv(Exec(m0, Calls(s.log)).value, s.mem, s.cpus[c]))
  }

  lemma MarkOneMore(bits: seq<bool>, lo: nat, n: nat, v: bool)
    ensures Mark(Mark(bits, lo, n, v), lo + n, 1, v) == Mark(bits, lo, n + 1, v)
    ensures Mark(bits, lo, 0, v) == bits
  {
  }

  lemma ScanStepKeepsInv(m: PageState, mem: PageState, c: Cpu)
    requires Sized(m) && Sized(mem) && HolderInv(m, mem, c) && c.Scanning?
    ensures HolderInv(m, StepInside(mem, c).0, StepInside(mem, c).1)
  {
  }

  lemma FreeStepKeepsInv(m: PageState, mem: PageState, c: Cpu)
    requires Sized(m) && Sized(mem) && HolderInv(m, mem, c)
    requires c.Locating? || c.Clearing? || c.Erasing?
    ensures HolderInv(m, StepInside(mem, c).0, StepInside(mem, c).1)
  {
    var p := PageOf(m, c.ptr);
    MarkOneMore(m.bits, p, if c.Clearing? then c.next - p else 0, false);
  }

  lemma ReserveStepKeepsInv(m: PageState, mem: PageState, c: Cpu)
    requires Sized(m) && Sized(mem) && HolderInv(m, mem, c)
    requires c.Reserving? || c.Recording? || c.Counting?
    ensures HolderInv(m, StepInside(mem, c).0, StepInside(mem, c).1)
  {
    hide RunScan, DivRoundUp, Wrap64, Wrap32;
    FoundInRange(m.bits, m.max, PagesFor(c.numBytes), m.cursor);
    if c.Reserving? {
      MarkOneMore(m.bits, c.start, c.next - c.start, true);
    }
  }

  lemma StaysInside(mem: PageState, c: Cpu)
    requires Sized(mem) && c.Inside()
    ensures StepInside(mem, c).1.Inside()
  {
  }

  /** Inside the lock every step carries the call on. */
  lemma StepInsideKeepsInv(m: PageState, mem: PageState, c: Cpu)
    requires Sized(m) && Sized(mem) && HolderInv(m, mem, c)
    requires !c.Returning? && !c.Leaving?
    ensures HolderInv(m, StepInside(mem, c).0, StepInside(mem, c).1)
  {
    match c
    case Scanning(_, _, _, _, _) => ScanStepKeepsInv(m, mem, c);
    case Halted(ptr) =>
    case Locating(_) => FreeStepKeepsInv(m, mem, c);
    case Clearing(_, _) => FreeStepKeepsInv(m, mem, c);
    case Erasing(_) => FreeStepKeepsInv(m, mem, c);
    case _ => ReserveStepKeepsInv(m, mem, c);
  }

  /** One more finished call. */
  lemma LogGrows(m0: PageState, log: seq<Event>, m: PageState, e: Event, mem: PageState)
    requires Sized(m0) && Sequential(m0, log) && Exec(m0, Calls(log)) == Some(m)
    requires PageRuns.Step(m, e.op) == Some(mem)
    requires e.op.Alloc? ==> e.ptr == Kalloc(m, e.op.numBytes).1
    ensures Exec(m0, Calls(log + [e])) == Some(mem) && Sequential(m0, log + [e])
  {
    hide Kalloc, Kfree;
    CallsAppend(log, e);
    assert (log + [e])[..|log|] == log;
  }

  /** What the call did to the memory is what the sequential call does. */
  lemma FinishedCall(m: PageState, mem: PageState, c: Cpu, e: Event)
    requires Sized(m) && Sized(mem) && HolderInv(m, mem, c)
    requires (c.Returning? && e.op == Alloc(c.numBytes) && e.ptr == c.ptr) || (c.Leaving? && e.op == Free(c.ptr))
    ensures PageRuns.Step(m, e.op) == Some(mem)
    ensures e.op.Alloc? ==> e.ptr == Kalloc(m, e.op.numBytes).1
  {
  }

  /** Releasing the lock appends the call to the log. */
  lemma ReleaseKeepsGood(m0: PageState, s: Sys, c: nat, op: Op)
    requires Sized(m0) && Good(m0, s) && c < |s.cpus|
    requires s.cpus[c].Returning? || s.cpus[c].Leaving?
    ensures Good(m0, Step(s, c, op))
  {
    hide Kalloc, Kfree, PageRuns.Step, Sequential, HolderInv, Exec;
    var t := Step(s, c, op);
    var m := Exec(m0, Calls(s.log)).value;
    var e := t.log[|s.log|];
    FinishedCall(m, s.mem, s.cpus[c], e);
    LogGrows(m0, s.log, m, e, s.mem);
  }

  lemma StepInsideKeepsGood(m0: PageState, s: Sys, c: nat, op: Op)
    requires Sized(m0) && Good(m0, s) && c < |s.cpus|
    requires s.cpus[c].Inside() && !s.cpus[c].Returning? && !s.cpus[c].Leaving?
    ensures Good(m0, Step(s, c, op))
  {
    StepInsideKeepsInv(Exec(m0, Calls(s.log)).value, s.mem, s.cpus[c]);
    StaysInside(s.mem, s.cpus[c]);
    assert Step(s, c, op).cpus[c].Inside();
  }

  lemma StepOutsideKeepsGood(m0: PageState, s: Sys, c: nat, op: Op)
    requires Sized(m0) && Good(m0, s) && c < |s.cpus|
    requires !s.cpus[c].Inside()
    ensures Good(m0, Step(s, c, op))
  {
    var t := Step(s, c, op);
    if t.lock && !s.lock {
      assert t.cpus[c].Inside();
    } else if s.lock {
      var h :| 0 <= h < |s.cpus| && s.cpus[h].Inside();
      assert t.cpus[h].Inside();
    }
  }

  lemma StepKeepsGood(m0: PageState, s: Sys, c: nat, op: Op)
    requires Sized(m0) && Good(m0, s) && c < |s.cpus|
    ensures Good(m0, Step(s, c, op))
  {
    if s.cpus[c].Returning? || s.cpus[c].Leaving? {
      ReleaseKeepsGood(m0, s, c, op);
    } else if s.cpus[c].Inside() {
      StepInsideKeepsGood(m0, s, c, op);
    } else {
      StepOutsideKeepsGood(m0, s, c, op);
    }
  }

  /** Every reachable state of every interleaving: at most one CPU is inside, exactly when the lock is
      held, and the finished calls form a sequential run whose memory is the memory seen whenever the
      lock is free. */
  lemma {:induction false} RunIsSequential(m0: PageState, n: nat, turns: seq<Turn>)
    requires Sized(m0) && Schedule(turns, n)
    ensures Good(m0, Run(Boot(m0, n), turns))
  {
    if turns != [] {
      var last := |turns| - 1;
      RunIsSequential(m0, n, turns[..last]);
      StepKeepsGood(m0, Run(Boot(m0, n), turns[..last]), turns[last].cpu, turns[last].op);
    }
  }

  // ---------- What follows for the callers ----------

  /** CPUs that make ordinary requests leave an ordinary log. */
  lemma {:induction false} OrdinaryTurnsOrdinaryLog(m0: PageState, n: nat, turns: seq<Turn>)
    requires Sized(m0) && Schedule(turns, n) && OrdinaryTurns(turns)
    ensures var s := Run(Boot(m0, n), turns); OrdinaryLog(s.log) && forall c :: 0 <= c < |s.cpus| ==> Sensible(s.cpus[c])
  {
    if turns != [] {
      var last := |turns| - 1;
      OrdinaryTurnsOrdinaryLog(m0, n, turns[..last]);
      StepStaysOrdinary(Run(Boot(m0, n), turns[..last]), turns[last].cpu, turns[last].op);
    }
  }

  lemma StepStaysOrdinary(s: Sys, c: nat, op: Op)
    requires Sized(s.mem) && c < |s.cpus| && (op.Alloc? ==> Ordinary(op.numBytes))
    requires OrdinaryLog(s.log) && forall d :: 0 <= d < |s.cpus| ==> Sensible(s.cpus[d])
    ensures var t := Step(s, c, op); OrdinaryLog(t.log) && forall d :: 0 <= d < |t.cpus| ==> Sensible(t.cpus[d])
  {
    assert Sensible(s.cpus[c]);
  }

  /** An ordinary log is a safe run, so bitmap and entry map agree at its end. */
  lemma {:induction false} LogKeepsInv(m0: PageState, reserved: seq<bool>, log: seq<Event>)
    requires Inv(m0, reserved) && m0.max < TWO32
    requires Sequential(m0, log)
    requires OrdinaryLog(log)
    ensures Exec(m0, Calls(log)).Some? && SafeRun(m0, Calls(log)) && Inv(Exec(m0, Calls(log)).value, reserved)
    ensures var t := Exec(m0, Calls(log)).value; t.max == m0.max && t.lowest == m0.lowest && t.hhdm == m0.hhdm
  {
    if log != [] {
      var last := |log| - 1;
      LogKeepsInv(m0, reserved, log[..last]);
      assert log == log[..last] + [log[last]];
      CallsAppend(log[..last], log[last]);
      var before := Exec(m0, Calls(log[..last])).value;
      if log[last].op.Alloc? {
        OrdinaryRequestIsSafe(before, log[last].op.numBytes);
      }
    } else {
      assert Calls(log) == [];
    }
    RunKeepsInv(m0, reserved, Calls(log));
    RunKeepsLayout(m0, Calls(log));
  }

  /** Whenever the lock is free, the bitmap and the entry map agree, however the CPUs were interleaved,
      as long as each finished request was safe; ordinary requests always are. */
  lemma InvWhenUnlocked(m0: PageState, reserved: seq<bool>, n: nat, turns: seq<Turn>)
    requires Inv(m0, reserved) && Schedule(turns, n)
    ensures var s := Run(Boot(m0, n), turns); !s.lock && SafeRun(m0, Calls(s.log)) ==> Inv(s.mem, reserved)
    ensures m0.max < TWO32 && OrdinaryTurns(turns) ==> SafeRun(m0, Calls(Run(Boot(m0, n), turns).log))
  {
    var s := Run(Boot(m0, n), turns);
    RunIsSequential(m0, n, turns);
    if SafeRun(m0, Calls(s.log)) {
      RunKeepsInv(m0, reserved, Calls(s.log));
    }
    if m0.max < TWO32 && OrdinaryTurns(turns) {
      OrdinaryTurnsOrdinaryLog(m0, n, turns);
      LogKeepsInv(m0, reserved, s.log);
    }
  }

  /** Call k of the log was a kalloc that succeeded, and no later call freed a pointer into its first page. */
  ghost predicate Live(m0: PageState, log: seq<Event>, k: nat) {
    && k < |log| && log[k].op.Alloc? && log[k].ptr != 0
    && forall j :: k < j < |log| && log[j].op.Free? ==> PageOf(m0, log[j].op.ptr) != PageOf(m0, log[k].ptr)
  }

  /** The block call k returned. */
  function BlockStart(m0: PageState, log: seq<Event>, k: nat): nat
    requires k < |log|
  {
    PageOf(m0, log[k].ptr)
  }

  function BlockLength(log: seq<Event>, k: nat): nat
    requires k < |log| && log[k].op.Alloc?
  {
    PagesFor(log[k].op.numBytes)
  }

  /** A live block is still in the entry map, with the length that was asked for. */
  lemma {:induction false} LiveBlockIsRecorded(m0: PageState, reserved: seq<bool>, log: seq<Event>, k: nat)
    requires Inv(m0, reserved) && m0.max < TWO32 && DirectMapped(m0)
    requires Sequential(m0, log)
    requires OrdinaryLog(log)
    requires Live(m0, log, k)
    ensures Exec(m0, Calls(log)).Some?
    ensures var p := BlockStart(m0, log, k);
            && p < m0.max <= |Exec(m0, Calls(log)).value.entries|
            && Exec(m0, Calls(log)).value.entries[p] == BlockLength(log, k) > 0
  {
    var last := |log| - 1;
    var init := log[..last];
    LogKeepsInv(m0, reserved, init);
    LogStep(m0, log);
    var before := Exec(m0, Calls(init)).value;
    if k == last {
      NewBlockIsRecorded(m0, before, reserved, log[k].op.numBytes);
    } else {
      LiveBlockIsRecorded(m0, reserved, init, k);
      OtherCallsKeepBlock(m0, before, reserved, BlockStart(m0, log, k), log[last].op);
    }
  }

  /** The last call of a log takes the state before it to the state after it. */
  lemma LogStep(m0: PageState, log: seq<Event>)
    requires Sized(m0) && log != [] && Sequential(m0, log)
    ensures var last := |log| - 1;
            && Exec(m0, Calls(log[..last])).Some? && Exec(m0, Calls(log)).Some?
            && PageRuns.Step(Exec(m0, Calls(log[..last])).value, log[last].op) == Exec(m0, Calls(log))
  {
    assert log == log[..|log| - 1] + [log[|log| - 1]];
    CallsAppend(log[..|log| - 1], log[|log| - 1]);
  }

  lemma NewBlockIsRecorded(m0: PageState, m: PageState, reserved: seq<bool>, numBytes: u64)
    requires Inv(m, reserved) && DirectMapped(m) && Ordinary(numBytes) && m.max < TWO32
    requires m.lowest == m0.lowest && m.hhdm == m0.hhdm
    requires Kalloc(m, numBytes).1 != 0
    ensures var (t, ptr) := Kalloc(m, numBytes);
            && PageOf(m0, ptr) < m.max && 0 < PagesFor(numBytes)
            && m.entries[PageOf(m0, ptr)] == 0 && t.entries[PageOf(m0, ptr)] == PagesFor(numBytes)
  {
    DivRoundUpIsCeiling(numBytes);
    var n := PagesFor(numBytes);
    FoundInRange(m.bits, m.max, n, m.cursor);
    assert n < TWO32;
    var r := KallocIsNextFit(m, reserved, numBytes);
    PageAddressRoundTrip(m, r.value);
    FreePage(m, reserved, r.value);
  }

  lemma OtherCallsKeepBlock(m0: PageState, m: PageState, reserved: seq<bool>, p: nat, op: Op)
    requires Inv(m, reserved) && DirectMapped(m) && m.max < TWO32
    requires m.lowest == m0.lowest && m.hhdm == m0.hhdm
    requires p < m.max && m.entries[p] > 0 && PageRuns.Step(m, op).Some?
    requires op.Alloc? ==> Ordinary(op.numBytes)
    requires op.Free? ==> PageOf(m0, op.ptr) != p
    ensures PageRuns.Step(m, op).value.entries[p] == m.entries[p]
  {
    if op.Alloc? && Kalloc(m, op.numBytes).1 != 0 {
      NewBlockIsRecorded(m0, m, reserved, op.numBytes);
      var n := PagesFor(op.numBytes);
      FoundInRange(m.bits, m.max, n, m.cursor);
      var start := RunScan(m.bits, m.max, n, StartScan(m.cursor)).0.start;
      PageAddressRoundTrip(m, start);
    } else if op.Alloc? && Grants(m, op.numBytes) {
      FoundInRange(m.bits, m.max, PagesFor(op.numBytes), m.cursor);
      AddrIsDirect(m, RunScan(m.bits, m.max, PagesFor(op.numBytes), StartScan(m.cursor)).0.start);
    }
  }

  lemma {:induction false} SequentialPrefix(m0: PageState, log: seq<Event>, i: nat)
    requires Sized(m0) && Sequential(m0, log) && i <= |log|
    ensures Sequential(m0, log[..i])
  {
    if i < |log| {
      SequentialPrefix(m0, log[..|log| - 1], i);
      assert log[..|log| - 1][..i] == log[..i];
    } else {
      assert log[..i] == log;
    }
  }

  /** What a kalloc of the log returned is what kalloc returns after the calls before it. */
  lemma LogPointer(m0: PageState, log: seq<Event>, k: nat)
    requires Sized(m0) && Sequential(m0, log) && k < |log| && log[k].op.Alloc?
    ensures Exec(m0, Calls(log[..k])).Some?
    ensures log[k].ptr == Kalloc(Exec(m0, Calls(log[..k])).value, log[k].op.numBytes).1
  {
    SequentialPrefix(m0, log, k + 1);
    assert log[..k + 1][..k] == log[..k];
  }

  /** Every page of the n from p on is taken, and no entry covers it but that of p, if any does. */
  ghost predicate Owned(m: PageState, p: nat, n: nat) {
    && p + n <= m.max <= |m.bits|
    && forall i :: p <= i < p + n ==> PageOwned(m, p, i)
  }

  ghost predicate PageOwned(m: PageState, p: nat, i: nat) {
    i < |m.bits| && m.bits[i] && forall q :: InBlock(m.entries, q, i) ==> q == p
  }

  /** What any kalloc returns, whatever was asked for: pages that were free and are now owned. */
  lemma NewBlockIsOwned(m: PageState, reserved: seq<bool>, numBytes: u64)
    requires Inv(m, reserved) && DirectMapped(m) && Kalloc(m, numBytes).1 != 0
    ensures var (t, ptr) := Kalloc(m, numBytes);
            var p, n := PageOf(m, ptr), PagesFor(numBytes);
            && Owned(t, p, n) && forall i :: p <= i < p + n ==> !m.bits[i]
  {
    hide RunScan, Kalloc;
    var r := KallocIsNextFit(m, reserved, numBytes);
    PageAddressRoundTrip(m, r.value);
    var t := Kalloc(m, numBytes).0;
    forall i | r.value <= i < r.value + PagesFor(numBytes) ensures PageOwned(t, r.value, i) {
      assert !Covered(m.entries, i);
      assert forall q :: InBlock(t.entries, q, i) && q != r.value ==> InBlock(m.entries, q, i);
    }
  }

  /** A call other than its free, whatever it asks for or frees, leaves a block owned. */
  lemma OtherCallsKeepOwned(m: PageState, reserved: seq<bool>, p: nat, n: nat, op: Op)
    requires Inv(m, reserved) && DirectMapped(m) && Owned(m, p, n) && PageRuns.Step(m, op).Some?
    requires op.Free? ==> PageOf(m, op.ptr) != p
    ensures Owned(PageRuns.Step(m, op).value, p, n)
  {
    match op
    case Alloc(numBytes) => OtherAllocKeepsOwned(m, reserved, p, n, numBytes);
    case Free(ptr) => OtherFreeKeepsOwned(m, p, n, ptr);
  }

  lemma OtherFreeKeepsOwned(m: PageState, p: nat, n: nat, ptr: u64)
    requires Sized(m) && Owned(m, p, n) && Kfree(m, ptr).Some? && PageOf(m, ptr) != p
    ensures Owned(Kfree(m, ptr).value, p, n)
  {
    var t := Kfree(m, ptr).value;
    forall i | p <= i < p + n ensures PageOwned(t, p, i) {
      assert PageOwned(m, p, i);
      assert !InBlock(m.entries, PageOf(m, ptr), i);
      assert forall q :: InBlock(t.entries, q, i) ==> InBlock(m.entries, q, i);
    }
  }

  lemma OtherAllocKeepsOwned(m: PageState, reserved: seq<bool>, p: nat, n: nat, numBytes: u64)
    requires Inv(m, reserved) && DirectMapped(m) && Owned(m, p, n)
    ensures Owned(Kalloc(m, numBytes).0, p, n)
  {
    hide RunScan, Kalloc;
    var r := KallocIsNextFit(m, reserved, numBytes);
    var t := Kalloc(m, numBytes).0;
    forall i | p <= i < p + n ensures PageOwned(t, p, i) {
      assert PageOwned(m, p, i);
      assert forall q :: InBlock(t.entries, q, i) ==> InBlock(m.entries, q, i);
    }
  }

  /** Some invariant holds after every log, and the addresses are those of the start. */
  lemma AnyLogKeepsInv(m0: PageState, reserved: seq<bool>, log: seq<Event>) returns (reserved': seq<bool>)
    requires Inv(m0, reserved) && DirectMapped(m0) && Sequential(m0, log)
    ensures Exec(m0, Calls(log)).Some? && Inv(Exec(m0, Calls(log)).value, reserved')
    ensures var t := Exec(m0, Calls(log)).value; DirectMapped(t) && t.max == m0.max && t.lowest == m0.lowest && t.hhdm == m0.hhdm
  {
    assert log == [] ==> Calls(log) == [];
    reserved' := AnyRunKeepsInv(m0, reserved, Calls(log));
    RunKeepsLayout(m0, Calls(log));
  }

  /** The pages of a live block are owned, whatever was called since. */
  lemma {:induction false} LiveBlockIsOwned(m0: PageState, reserved: seq<bool>, log: seq<Event>, k: nat)
    requires Inv(m0, reserved) && DirectMapped(m0)
    requires Sequential(m0, log) && Live(m0, log, k)
    ensures Exec(m0, Calls(log)).Some?
    ensures Owned(Exec(m0, Calls(log)).value, BlockStart(m0, log, k), BlockLength(log, k))
    ensures Exec(m0, Calls(log)).value.max == m0.max
  {
    hide Kalloc, BlocksApart, Agree, DirectMapped, Owned, Sequential, RunScan, Exec, Calls, DivRoundUp;
    var last := |log| - 1;
    var init := log[..last];
    SequentialPrefix(m0, log, last);
    var reserved' := AnyLogKeepsInv(m0, reserved, init);
    LogStep(m0, log);
    LogPointer(m0, log, k);
    var before := Exec(m0, Calls(init)).value;
    var after := AnyLogKeepsInv(m0, reserved, log);
    if k == last {
      NewBlockIsOwned(before, reserved', log[k].op.numBytes);
    } else {
      LiveBlockIsOwned(m0, reserved, init, k);
      OtherCallsKeepOwned(before, reserved', BlockStart(m0, log, k), BlockLength(log, k), log[last].op);
    }
  }

  /** In every reachable state of every interleaving, whatever the CPUs ask for and free, the blocks that
      kalloc has returned to any CPU and that nobody has freed since lie below max_pages_available and are
      pairwise disjoint; a block of no pages has nothing to share. */
  lemma LiveBlocksAreDisjoint(m0: PageState, reserved: seq<bool>, n: nat, turns: seq<Turn>, j: nat, k: nat)
    requires Inv(m0, reserved) && DirectMapped(m0) && Schedule(turns, n)
    requires var log := Run(Boot(m0, n), turns).log; j < k && Live(m0, log, j) && Live(m0, log, k)
    ensures var log := Run(Boot(m0, n), turns).log;
            var (p, len), (q, len') := (BlockStart(m0, log, j), BlockLength(log, j)), (BlockStart(m0, log, k), BlockLength(log, k));
            && p + len <= m0.max && q + len' <= m0.max
            && (len > 0 && len' > 0 ==> Disjoint(p, len, q, len'))
  {
    hide Kalloc, BlocksApart, Agree, DirectMapped, Sequential, Run, RunScan, PageOwned;
    var log := Run(Boot(m0, n), turns).log;
    RunIsSequential(m0, n, turns);
    LiveBlockIsOwned(m0, reserved, log, j);
    LiveBlockIsOwned(m0, reserved, log, k);
    // the pages of block k were free when block j was already owned
    var init := log[..k];
    SequentialPrefix(m0, log, k);
    LiveBlockIsOwned(m0, reserved, init, j);
    var reserved' := AnyLogKeepsInv(m0, reserved, init);
    LogPointer(m0, log, k);
    NewBlockIsOwned(Exec(m0, Calls(init)).value, reserved', log[k].op.numBytes);
    var i := SharedPage(BlockStart(m0, log, j), BlockLength(log, j), BlockStart(m0, log, k), BlockLength(log, k));
    OwnedIsTaken(Exec(m0, Calls(init)).value, BlockStart(m0, log, j), BlockLength(log, j), i);
  }

  /** Two stretches that are not disjoint share a page. */
  lemma SharedPage(p: nat, len: nat, q: nat, len': nat) returns (i: nat)
    ensures len > 0 && len' > 0 && !Disjoint(p, len, q, len') ==> p <= i < p + len && q <= i < q + len'
  {
    i := if p < q then q else p;
  }

  lemma OwnedIsTaken(m: PageState, p: nat, n: nat, i: nat)
    requires Owned(m, p, n)
    ensures p <= i < p + n ==> i < |m.bits| && m.bits[i]
  {
    assert p <= i < p + n ==> PageOwned(m, p, i);
  }

  // ---------- The lock comes free again ----------

  function StillToClear(mem: PageState, p: nat, next: nat): nat {
    if p < |mem.entries| && next < p + mem.entries[p] then p + mem.entries[p] - next else 0
  }

  /** How many more steps the CPU inside the lock takes at most before it releases it. */
  function Work(mem: PageState, c: Cpu): nat
    requires Sized(mem)
  {
    match c
    case Scanning(nb, start, count, looped, allocating) =>
      Remaining(Scan(mem.cursor, start, count, looped, allocating), mem.max) + PagesFor(nb) + 4
    case Reserving(nb, start, next) => (if next < start + PagesFor(nb) then start + PagesFor(nb) - next else 0) + 4
    case Recording(_, _) => 3
    case Counting(_, _) => 2
    case Returning(_, _) => 1
    case Locating(ptr) => StillToClear(mem, PageOf(mem, ptr), PageOf(mem, ptr)) + 4
    case Clearing(ptr, next) => StillToClear(mem, PageOf(mem, ptr), next) + 3
    case Erasing(_) => 2
    case Leaving(_) => 1
    case _ => 0
  }

  lemma ScanStepWorks(m: PageState, mem: PageState, c: Cpu)
    requires Sized(m) && Sized(mem) && HolderInv(m, mem, c) && c.Scanning?
    ensures var (mem', d) := StepInside(mem, c); Work(mem', d) < Work(mem, c)
  {
  }

  lemma FreeStepWorks(m: PageState, mem: PageState, c: Cpu)
    requires Sized(m) && Sized(mem) && HolderInv(m, mem, c)
    requires c.Locating? || c.Clearing? || c.Erasing?
    ensures var (mem', d) := StepInside(mem, c); d.Halted? || Work(mem', d) < Work(mem, c)
  {
  }

  lemma StepInsideWorks(m: PageState, mem: PageState, c: Cpu)
    requires Sized(m) && Sized(mem) && HolderInv(m, mem, c)
    requires !c.Returning? && !c.Leaving? && !c.Halted?
    ensures var (mem', d) := StepInside(mem, c); d.Halted? || Work(mem', d) < Work(mem, c)
  {
    match c
    case Scanning(_, _, _, _, _) => ScanStepWorks(m, mem, c);
    case Reserving(_, _, _) =>
    case Recording(_, _) =>
    case Counting(_, _) =>
    case _ => FreeStepWorks(m, mem, c);
  }

  /** Steps of the other CPUs touch neither the memory nor the holder nor the lock; each step of the
      holder brings the release closer, until it releases, or halts for good on a pointer outside the
      scan region. */
  lemma HolderAdvances(m0: PageState, s: Sys, h: nat, c: nat, op: Op)
    requires Sized(m0) && Good(m0, s)
    requires h < |s.cpus| && c < |s.cpus| && s.cpus[h].Inside()
    ensures var t := Step(s, c, op);
            if c != h then t.mem == s.mem && t.cpus[h] == s.cpus[h] && t.lock
            else if s.cpus[h].Halted? then t == s
            else !t.lock || t.cpus[h].Halted? || Work(t.mem, t.cpus[h]) < Work(s.mem, s.cpus[h])
  {
    var m := Exec(m0, Calls(s.log)).value;
    assert HolderInv(m, s.mem, s.cpus[h]);
    if c == h && !s.cpus[h].Returning? && !s.cpus[h].Leaving? && !s.cpus[h].Halted? {
      StepInsideWorks(m, s.mem, s.cpus[h]);
    }
  }

  // ---------- Every call gets done ----------

  /** The call a CPU is in the middle of. */
  function CallOf(c: Cpu): Option<Op> {
    match c
    case Idle => None
    case WantAlloc(nb) => Some(Alloc(nb))
    case Scanning(nb, _, _, _, _) => Some(Alloc(nb))
    case Reserving(nb, _, _) => Some(Alloc(nb))
    case Recording(nb, _) => Some(Alloc(nb))
    case Counting(nb, _) => Some(Alloc(nb))
    case Returning(nb, _) => Some(Alloc(nb))
    case WantFree(ptr) => Some(Free(ptr))
    case Locating(ptr) => Some(Free(ptr))
    case Clearing(ptr, _) => Some(Free(ptr))
    case Erasing(ptr) => Some(Free(ptr))
    case Leaving(ptr) => Some(Free(ptr))
    case Halted(ptr) => Some(Free(ptr))
  }

  /** k turns of CPU c alone. */
  function Alone(c: nat, op: Op, k: nat): (turns: seq<Turn>)
    ensures |turns| == k && forall i :: 0 <= i < k ==> turns[i] == Turn(c, op)
  {
    seq(k, i => Turn(c, op))
  }

  /** The first of them, then the others. */
  lemma {:induction false} AloneStep(s: Sys, c: nat, op: Op, k: nat)
    requires Sized(s.mem) && c < |s.cpus|
    ensures Run(s, Alone(c, op, k + 1)) == Run(Step(s, c, op), Alone(c, op, k))
  {
    hide Step, Alone;
    assert Alone(c, op, k + 1)[..k] == Alone(c, op, k);
    if k > 0 {
      AloneStep(s, c, op, k - 1);
      assert Alone(c, op, k)[..k - 1] == Alone(c, op, k - 1);
    }
  }

  lemma AloneNothing(s: Sys, c: nat, op: Op)
    requires Sized(s.mem) && c < |s.cpus|
    ensures Run(s, Alone(c, op, 0)) == s
  {
  }

  /** What the pointer of a call is when it is logged. */
  function ResultOf(m: PageState, op: Op): u64
    requires Sized(m)
  {
    if op.Alloc? then Kalloc(m, op.numBytes).1 else 0
  }

  lemma CallStays(mem: PageState, c: Cpu)
    requires Sized(mem)
    ensures CallOf(StepInside(mem, c).1) == CallOf(c)
  {
  }

  lemma StepOfHolder(s: Sys, c: nat, op: Op)
    requires Sized(s.mem) && c < |s.cpus| && s.cpus[c].Inside() && !s.cpus[c].Returning? && !s.cpus[c].Leaving?
    ensures Step(s, c, op) == s.(mem := StepInside(s.mem, s.cpus[c]).0, cpus := s.cpus[c := StepInside(s.mem, s.cpus[c]).1])
  {
  }

  /** A CPU inside the lock, left alone, finishes its call or halts with the lock held. */
  lemma {:induction false} HolderFinishes(m: PageState, s: Sys, c: nat, op: Op, turn: Op) returns (k: nat)
    requires Sized(m) && Sized(s.mem) && c < |s.cpus| && s.lock
    requires HolderInv(m, s.mem, s.cpus[c]) && CallOf(s.cpus[c]) == Some(op)
    ensures var t := Run(s, Alone(c, turn, k));
            var after := PageRuns.Step(m, op);
            if after.Some? then
              t == Sys(false, after.value, s.cpus[c := Idle], s.log + [Event(c, op, ResultOf(m, op))])
            else op.Free? && t == Sys(true, m, s.cpus[c := Halted(op.ptr)], s.log)
    decreases Work(s.mem, s.cpus[c])
  {
    hide Run, RunScan, StepInside, Kalloc, Kfree, Work;
    var d := s.cpus[c];
    AloneNothing(s, c, turn);
    if d.Halted? {
      k := 0;
      HaltedHolder(m, s.mem, d);
      assert s.cpus[c := d] == s.cpus;
    } else if d.Returning? || d.Leaving? {
      k := 1;
      AloneStep(s, c, turn, 0);
      AloneNothing(Step(s, c, turn), c, turn);
      LastStep(m, s, c, turn);
    } else {
      StepInsideKeepsInv(m, s.mem, d);
      StepInsideWorks(m, s.mem, d);
      CallStays(s.mem, d);
      StepOfHolder(s, c, turn);
      var t := Step(s, c, turn);
      WorkOfHalted(t.mem, t.cpus[c]);
      WorkIsPositive(m, s.mem, d);
      var rest := HolderFinishes(m, t, c, op, turn);
      AloneStep(s, c, turn, rest);
      k := rest + 1;
      var e := if PageRuns.Step(m, op).Some? then Idle else Halted(op.ptr);
      assert t.cpus[c := e] == s.cpus[c := e];
    }
  }

  lemma HaltedHolder(m: PageState, mem: PageState, c: Cpu)
    requires Sized(m) && Sized(mem) && HolderInv(m, mem, c) && c.Halted?
    ensures mem == m && PageRuns.Step(m, Free(c.ptr)) == None
  {
  }

  lemma LastStep(m: PageState, s: Sys, c: nat, turn: Op)
    requires Sized(m) && Sized(s.mem) && c < |s.cpus|
    requires HolderInv(m, s.mem, s.cpus[c]) && (s.cpus[c].Returning? || s.cpus[c].Leaving?)
    ensures var op := CallOf(s.cpus[c]).value;
            && PageRuns.Step(m, op) == Some(s.mem)
            && Step(s, c, turn) == Sys(false, s.mem, s.cpus[c := Idle], s.log + [Event(c, op, ResultOf(m, op))])
  {
  }

  lemma WorkOfHalted(mem: PageState, c: Cpu)
    requires Sized(mem)
    ensures c.Halted? ==> Work(mem, c) == 0
  {
  }

  lemma WorkIsPositive(m: PageState, mem: PageState, c: Cpu)
    requires Sized(m) && Sized(mem) && HolderInv(m, mem, c) && !c.Halted?
    ensures Work(mem, c) > 0
  {
  }

  /** From any state with the lock free, an idle CPU that makes a call and is then left alone gets in, and
      after some number of turns has done exactly what the sequential call does: the memory is that
      call's, the call is in the log as it was made, with its result, the lock is free and nothing else
      has changed.  If the call halts, it ends halted with the lock held and nothing changed. */
  lemma CallCompletes(s: Sys, c: nat, op: Op) returns (k: nat)
    requires Sized(s.mem) && c < |s.cpus| && !s.lock && s.cpus[c] == Idle
    ensures var t := Run(s, Alone(c, op, k));
            var after := PageRuns.Step(s.mem, op);
            if after.Some? then
              t == s.(mem := after.value, log := s.log + [Event(c, op, if op.Alloc? then Kalloc(s.mem, op.numBytes).1 else 0)])
            else op.Free? && t == s.(lock := true, cpus := s.cpus[c := Halted(op.ptr)])
  {
    hide Run, RunScan, Kalloc, Kfree;
    var s1 := Step(s, c, op);
    var s2 := Step(s1, c, op);
    assert s2.lock && s2.mem == s.mem && s2.log == s.log && CallOf(s2.cpus[c]) == Some(op);
    assert HolderInv(s.mem, s.mem, s2.cpus[c]);
    var rest := HolderFinishes(s.mem, s2, c, op, op);
    AloneStep(s, c, op, rest + 1);
    AloneStep(s1, c, op, rest);
    k := rest + 2;
    var e := if PageRuns.Step(s.mem, op).Some? then Idle else Halted(op.ptr);
    assert s2.cpus[c := e] == s.cpus[c := e];
    assert s.cpus[c := Idle] == s.cpus;
  }

  // ---------- The log is what the CPUs asked for ----------

  /** The calls CPU c has begun: what it was told to do whenever its turn found it idle. */
  function Begun(m0: PageState, n: nat, turns: seq<Turn>, c: nat): seq<Op>
    requires Sized(m0) && Schedule(turns, n) && c < n
  {
    if turns == [] then []
    else
      var last := |turns| - 1;
      Begun(m0, n, turns[..last], c)
      + if turns[last].cpu == c && Run(Boot(m0, n), turns[..last]).cpus[c] == Idle then [turns[last].op] else []
  }

  /** The calls of CPU c in the log. */
  function LoggedBy(log: seq<Event>, c: nat): seq<Op> {
    if log == [] then []
    else LoggedBy(log[..|log| - 1], c) + if log[|log| - 1].cpu == c then [log[|log| - 1].op] else []
  }

  function Pending(c: Cpu): seq<Op> {
    if CallOf(c).Some? then [CallOf(c).value] else []
  }

  lemma StepLogs(s: Sys, t: Sys, turn: Turn, c: nat)
    requires Sized(s.mem) && turn.cpu < |s.cpus| && c < |s.cpus| && t == Step(s, turn.cpu, turn.op)
    ensures LoggedBy(t.log, c) + Pending(t.cpus[c])
         == LoggedBy(s.log, c) + Pending(s.cpus[c]) + if turn.cpu == c && s.cpus[c] == Idle then [turn.op] else []
  {
    hide Step, LoggedBy, CallOf;
    OneCpuMoves(s, turn.cpu, turn.op);
    if |t.log| > |s.log| {
      LoggedMore(s.log, t.log[|s.log|], c);
    }
  }

  /** A step changes one CPU, and its call only by beginning it or by logging it. */
  lemma OneCpuMoves(s: Sys, c: nat, op: Op)
    requires Sized(s.mem) && c < |s.cpus|
    ensures var t, d := Step(s, c, op), s.cpus[c];
            && t.cpus == s.cpus[c := t.cpus[c]]
            && if d.Returning? || d.Leaving? then
                 && t.cpus[c] == Idle && CallOf(Idle) == None && |t.log| == |s.log| + 1 && t.log == s.log + [t.log[|s.log|]]
                 && t.log[|s.log|].cpu == c && CallOf(d) == Some(t.log[|s.log|].op)
               else
                 && t.log == s.log && (d == Idle <==> CallOf(d) == None)
                 && CallOf(t.cpus[c]) == if d == Idle then Some(op) else CallOf(d)
  {
    hide StepInside;
    CallStays(s.mem, s.cpus[c]);
  }

  lemma LoggedMore(log: seq<Event>, e: Event, c: nat)
    ensures LoggedBy(log + [e], c) == LoggedBy(log, c) + if e.cpu == c then [e.op] else []
  {
    assert (log + [e])[..|log|] == log;
  }

  /** In every interleaving, the calls CPU c has begun are, in order, those the log has of it and then the
      one it is in the middle of: no call is lost, made up, altered or taken for another CPU's. */
  lemma {:induction false} EveryCallIsLogged(m0: PageState, n: nat, turns: seq<Turn>, c: nat)
    requires Sized(m0) && Schedule(turns, n) && c < n
    ensures var s := Run(Boot(m0, n), turns);
            Begun(m0, n, turns, c)
            == LoggedBy(s.log, c) + Pending(s.cpus[c])
  {
    hide Step;
    if turns != [] {
      var last := |turns| - 1;
      EveryCallIsLogged(m0, n, turns[..last], c);
      StepLogs(Run(Boot(m0, n), turns[..last]), Run(Boot(m0, n), turns), turns[last], c);
    }
  }
}
