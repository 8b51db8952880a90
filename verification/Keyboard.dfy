/** The keyboard path on one CPU: the kernel loop (src/kernel.c:113-127) drains the queue that the
    keyboard interrupt (src/idt.c:120-127) fills.  The machine runs one statement of one of them at a
    time; an interrupt may arrive before any statement while interrupts are on, is entered with
    interrupts off, and runs to its end before the loop goes on. */
module Keyboard {
  import opened Machine
  import opened Queue

  /** The next statement of the kernel loop; the R states are those of cqueue_read. */
  datatype Loop =
    | Check | Cli
    | RLock | RTest | RLoad | RAdvance | RWrap | RCount | RUnlock
    | Sti | Handle

  /** The next statement of the interrupt handler; the W states are those of cqueue_write. */
  datatype Isr =
    | NoIsr
    | WLock(key: u32) | WTest(key: u32) | WStore(key: u32) | WAdvance(key: u32) | WWrap(key: u32)
    | WUnlock(key: u32) | WCount(key: u32) | WRefuse
    | Iret

  datatype Kernel = Kernel(
    ring: Ring,
    lock: bool,
    interrupts: bool,
    loop: Loop,
    val: u32,               // the local of cqueue_read
    isr: Isr,
    halted: bool,           // hcf in cqueue_read
    accepted: seq<u32>,     // the keys cqueue_write has taken
    read: seq<u32>)         // the values cqueue_read has returned

  /** What happens next: the running code takes a step, or the keyboard raises an interrupt. */
  datatype Event = Run | Key(key: u32)

  function Boot(buff: seq<u32>, lock: bool): Kernel {
    Kernel(Ring(buff, 0, 0, 0), lock, true, Check, 0, NoIsr, false, [], [])
  }

  /** A statement of the loop. */
  function StepLoop(k: Kernel): Kernel {
    var r := k.ring;
    match k.loop
    case Check => if r.numItems > 0 then k.(loop := Cli) else k
    case Cli => k.(interrupts := false, loop := RLock)
    case RLock => if k.lock then k else k.(lock := true, loop := RTest)
    case RTest => if r.numItems == 0 then k.(halted := true) else k.(loop := RLoad)
    case RLoad => if r.readI < |r.buff| then k.(val := r.buff[r.readI], loop := RAdvance) else k.(halted := true)
    case RAdvance => k.(ring := r.(readI := r.readI + 1), loop := RWrap)
    case RWrap => k.(ring := if r.readI == |r.buff| then r.(readI := 0) else r, loop := RCount)
    case RCount => k.(ring := r.(numItems := if r.numItems > 0 then r.numItems - 1 else TWO32 - 1), loop := RUnlock)
    case RUnlock => k.(lock := false, loop := Sti, read := k.read + [k.val])
    case Sti => k.(interrupts := true, loop := Handle)
    case Handle => k.(loop := Check)
  }

  /** A statement of the handler. */
  function StepIsr(k: Kernel): Kernel {
    var r := k.ring;
    match k.isr
    case NoIsr => k
    case WLock(key) => if k.lock then k else k.(lock := true, isr := WTest(key))
    case WTest(key) => k.(isr := if r.numItems == |r.buff| then WRefuse else WStore(key))
    case WStore(key) =>
      if r.writeI < |r.buff| then k.(ring := r.(buff := r.buff[r.writeI := key]), isr := WAdvance(key)) else k.(halted := true)
    case WAdvance(key) => k.(ring := r.(writeI := r.writeI + 1), isr := WWrap(key))
    case WWrap(key) => k.(ring := if r.writeI == |r.buff| then r.(writeI := 0) else r, isr := WUnlock(key))
    case WUnlock(key) => k.(lock := false, isr := WCount(key))
    case WCount(key) => k.(ring := r.(numItems := r.numItems + 1), isr := Iret, accepted := k.accepted + [key])
    case WRefuse => k.(lock := false, isr := Iret)
    case Iret => k.(interrupts := true, isr := NoIsr)
  }

  function Step(k: Kernel, e: Event): Kernel {
    if k.halted then k
    else if k.isr != NoIsr then StepIsr(k)
    else if e.Key? then if k.interrupts then k.(interrupts := false, isr := WLock(e.key)) else k
    else StepLoop(k)
  }

  function Exec(k: Kernel, events: seq<Event>): Kernel {
    if events == [] then k else Step(Exec(k, events[..|events| - 1]), events[|events| - 1])
  }

  // ---------- The invariant ----------

  /** The ring as it would be had the running queue operation finished its index and count updates,
      and the items that makes. */
  predicate LoopInv(k: Kernel) {
    var r := k.ring;
    && k.isr == NoIsr && !k.interrupts
    && (k.lock <==> k.loop != RLock && k.loop != Sti)
    && match k.loop
       case RLock => RingInv(r) && r.numItems > 0 && k.accepted == k.read + Items(r)
       case RTest => RingInv(r) && r.numItems > 0 && k.accepted == k.read + Items(r)
       case RLoad => RingInv(r) && r.numItems > 0 && k.accepted == k.read + Items(r)
       case RAdvance => RingInv(r) && r.numItems > 0 && k.accepted == k.read + Items(r) && k.val == r.buff[r.readI]
       case RWrap => r.readI > 0 && Taken(k, r.(readI := if r.readI == |r.buff| then 0 else r.readI))
       case RCount => Taken(k, r)
       case RUnlock => RingInv(r) && k.accepted == k.read + [k.val] + Items(r)
       case Sti => RingInv(r) && k.accepted == k.read + Items(r)
       case _ => false
  }

  /** All of a read is done but the count. */
  predicate Taken(k: Kernel, r: Ring) {
    r.numItems > 0 && RingInv(r.(numItems := r.numItems - 1))
    && k.accepted == k.read + [k.val] + Items(r.(numItems := r.numItems - 1))
  }

  /** All of a write is done but the count. */
  predicate Stored(k: Kernel, r: Ring, key: u32) {
    RingInv(r.(numItems := r.numItems + 1))
    && k.accepted + [key] == k.read + Items(r.(numItems := r.numItems + 1))
  }

  predicate IsrInv(k: Kernel) {
    var r := k.ring;
    && !k.interrupts && (k.loop == Check || k.loop == Cli || k.loop == Handle)
    && (k.loop == Cli ==> r.numItems > 0)
    && (k.lock <==> !k.isr.WLock? && !k.isr.WCount? && k.isr != Iret)
    && match k.isr
       case WStore(key) => RingInv(r) && r.numItems < |r.buff| && k.accepted == k.read + Items(r)
       case WAdvance(key) =>
         && r.writeI < |r.buff|
         && Stored(k, r.(writeI := Wrapped(r.writeI, |r.buff|)), key)
       case WWrap(key) => r.writeI > 0 && Stored(k, r.(writeI := if r.writeI == |r.buff| then 0 else r.writeI), key)
       case WUnlock(key) => Stored(k, r, key)
       case WCount(key) => Stored(k, r, key)
       case NoIsr => false
       case _ => RingInv(r) && k.accepted == k.read + Items(r)
  }

  predicate IdleInv(k: Kernel) {
    && k.interrupts && !k.lock && k.isr == NoIsr && (k.loop == Check || k.loop == Cli || k.loop == Handle)
    && (k.loop == Cli ==> k.ring.numItems > 0)
    && RingInv(k.ring) && k.accepted == k.read + Items(k.ring)
  }

  predicate KernelInv(k: Kernel) {
    !k.halted && (IdleInv(k) || LoopInv(k) || IsrInv(k))
  }

  lemma StoreKeepsInv(k: Kernel)
    requires !k.halted && IsrInv(k) && k.isr.WStore?
    ensures KernelInv(StepIsr(k))
  {
  }

  lemma IsrKeepsInv(k: Kernel)
    requires !k.halted && IsrInv(k)
    ensures KernelInv(StepIsr(k))
  {
    if k.isr.WStore? {
      StoreKeepsInv(k);
    }
  }

  lemma IdleKeepsInv(k: Kernel)
    requires !k.halted && IdleInv(k)
    ensures KernelInv(StepLoop(k))
  {
  }

  lemma AdvanceKeepsInv(k: Kernel)
    requires !k.halted && LoopInv(k) && k.loop == RAdvance
    ensures KernelInv(StepLoop(k))
  {
    TakeRemoves(k.ring);
    var t := StepLoop(k).ring;
    assert t.(readI := if t.readI == |t.buff| then 0 else t.readI, numItems := t.numItems - 1) == Take(k.ring);
  }

  lemma ReadKeepsInv(k: Kernel)
    requires !k.halted && LoopInv(k)
    ensures KernelInv(StepLoop(k))
  {
    if k.loop == RAdvance {
      AdvanceKeepsInv(k);
    }
  }

  lemma LoopKeepsInv(k: Kernel)
    requires !k.halted && (LoopInv(k) || IdleInv(k))
    ensures KernelInv(StepLoop(k))
  {
    if IdleInv(k) {
      IdleKeepsInv(k);
    } else {
      ReadKeepsInv(k);
    }
  }

  lemma {:induction false} ExecKeepsInv(buff: seq<u32>, events: seq<Event>)
    ensures KernelInv(Exec(Boot(buff, false), events))
  {
    if events == [] {
      assert Items(Ring(buff, 0, 0, 0)) == [];
    } else {
      var k := Exec(Boot(buff, false), events[..|events| - 1]);
      ExecKeepsInv(buff, events[..|events| - 1]);
      if k.isr != NoIsr {
        IsrKeepsInv(k);
      } else if events[|events| - 1] == Run {
        LoopKeepsInv(k);
      }
    }
  }

  // ---------- What it guarantees ----------

  /** For every interleaving of the loop with keyboard interrupts, and every buffer length: the read
      never finds the queue empty and never halts; neither side ever finds the lock held; and what has
      been read is, in order, a prefix of what was accepted. */
  lemma ProtocolIsSafe(buff: seq<u32>, events: seq<Event>)
    ensures var k := Exec(Boot(buff, false), events);
            && !k.halted
            && (k.isr == NoIsr && k.loop == RTest ==> k.ring.numItems > 0)
            && (k.isr == NoIsr && k.loop == RLock ==> !k.lock)
            && (k.isr.WLock? ==> !k.lock)
            && k.read <= k.accepted
  {
    hide Exec, KernelInv;
    ExecKeepsInv(buff, events);
    InvIsSafe(Exec(Boot(buff, false), events));
  }

  lemma InvIsSafe(k: Kernel)
    requires KernelInv(k)
    ensures !k.halted && k.read <= k.accepted && (k.isr.WLock? ==> !k.lock)
    ensures k.isr == NoIsr && k.loop == RTest ==> k.ring.numItems > 0
    ensures k.isr == NoIsr && k.loop == RLock ==> !k.lock
  {
    forall v | k.isr == WAdvance(v) || k.isr == WWrap(v) || k.isr == WUnlock(v) || k.isr == WCount(v)
      ensures k.read <= k.accepted
    {
      assert (k.accepted + [v])[..|k.accepted|] == k.accepted;
    }
  }

  /** Between operations nothing is lost: accepted keys are the values read followed by the queue. */
  lemma NothingIsLost(buff: seq<u32>, events: seq<Event>)
    ensures var k := Exec(Boot(buff, false), events);
            k.interrupts ==> RingInv(k.ring) && k.accepted == k.read + Items(k.ring)
  {
    hide Exec;
    ExecKeepsInv(buff, events);
  }

  /** What is lost: the handler does not look at the result of cqueue_write (src/idt.c:124), so a key that
      comes while the buffer holds as many unread keys as it has places is dropped.  Exactly those are. */
  lemma RefusedIff(buff: seq<u32>, events: seq<Event>, event: Event)
    requires Exec(Boot(buff, false), events).isr.WTest?
    ensures var k := Exec(Boot(buff, false), events);
            Step(k, event).isr == WRefuse <==> |k.accepted| - |k.read| == |buff|
  {
    hide Exec;
    ExecKeepsInv(buff, events);
    BufferKeepsLength(buff, false, events);
  }

  // ---------- From the key to the queue ----------

  /** What the interrupt does with key x in a state where it is taken: 8 statements after it the key is
      the last accepted one; if the buffer is full, 4 statements after it nothing has changed.  Then
      interrupts are on again and the loop is where it was. */
  lemma KeyIsTaken(k: Kernel, x: u32)
    requires KernelInv(k) && k.interrupts
    ensures |k.accepted| - |k.read| < |k.ring.buff| ==>
              var t := Exec(k, [Key(x)] + Quiet(8));
              && t == k.(ring := t.ring, accepted := k.accepted + [x])
              && RingInv(k.ring) && RingInv(t.ring) && Items(t.ring) == Items(k.ring) + [x]
    ensures |k.accepted| - |k.read| == |k.ring.buff| ==> Exec(k, [Key(x)] + Quiet(4)) == k
  {
    hide Exec, KernelInv, Handler, RingInv, Items;
    IdleMeans(k);
    if k.ring.numItems == |k.ring.buff| {
      HandlerRuns(k, x, 5);
      HandlerEnds(k, x);
    } else {
      HandlerRuns(k, x, 9);
      HandlerEnds(k, x);
      PutAppends(k.ring, x);
    }
  }

  /** The state after i of those steps, the interrupt itself included. */
  function Handler(k: Kernel, x: u32, i: nat): Kernel
    requires RingInv(k.ring)
  {
    var r := k.ring;
    var k2 := k.(interrupts := false, lock := true, isr := WTest(x));
    if i == 0 then k
    else if i == 1 then k.(interrupts := false, isr := WLock(x))
    else if i == 2 then k2
    else if r.numItems == |r.buff| then
      if i == 3 then k2.(isr := WRefuse) else if i == 4 then k2.(lock := false, isr := Iret) else k
    else
      var t := Put(r, x);
      if i == 3 then k2.(isr := WStore(x))
      else if i == 4 then k2.(ring := r.(buff := t.buff), isr := WAdvance(x))
      else if i == 5 then k2.(ring := r.(buff := t.buff, writeI := r.writeI + 1), isr := WWrap(x))
      else if i == 6 then k2.(ring := t.(numItems := r.numItems), isr := WUnlock(x))
      else if i == 7 then k2.(ring := t.(numItems := r.numItems), lock := false, isr := WCount(x))
      else if i == 8 then k2.(ring := t, lock := false, isr := Iret, accepted := k.accepted + [x])
      else k.(ring := t, accepted := k.accepted + [x])
  }

  lemma HandlerEnds(k: Kernel, x: u32)
    requires RingInv(k.ring)
    ensures if k.ring.numItems == |k.ring.buff| then Handler(k, x, 5) == k
            else Handler(k, x, 9) == k.(ring := Put(k.ring, x), accepted := k.accepted + [x])
  {
  }

  lemma HandlerStep(k: Kernel, x: u32, i: nat)
    requires !k.halted && IdleInv(k) && i < if k.ring.numItems == |k.ring.buff| then 5 else 9
    ensures Step(Handler(k, x, i), if i == 0 then Key(x) else Run) == Handler(k, x, i + 1)
  {
    hide Items, Handler, Step;
    if k.ring.numItems == |k.ring.buff| {
      HandlerRefuses(k, x, i);
    } else if i < 4 {
      HandlerStores(k, x, i);
    } else {
      HandlerFinishes(k, x, i);
    }
  }

  lemma HandlerRefuses(k: Kernel, x: u32, i: nat)
    requires !k.halted && IdleInv(k) && k.ring.numItems == |k.ring.buff| && i < 5
    ensures Step(Handler(k, x, i), if i == 0 then Key(x) else Run) == Handler(k, x, i + 1)
  {
    hide Items, Put;
  }

  lemma HandlerStores(k: Kernel, x: u32, i: nat)
    requires !k.halted && IdleInv(k) && k.ring.numItems < |k.ring.buff| && i < 4
    ensures Step(Handler(k, x, i), if i == 0 then Key(x) else Run) == Handler(k, x, i + 1)
  {
    hide Items, StepLoop;
  }

  lemma HandlerFinishes(k: Kernel, x: u32, i: nat)
    requires !k.halted && IdleInv(k) && k.ring.numItems < |k.ring.buff| && 4 <= i < 9
    ensures Step(Handler(k, x, i), Run) == Handler(k, x, i + 1)
  {
    hide Items, StepLoop;
  }

  lemma {:induction false} HandlerRuns(k: Kernel, x: u32, n: nat)
    requires !k.halted && IdleInv(k) && 0 < n <= if k.ring.numItems == |k.ring.buff| then 5 else 9
    ensures Exec(k, [Key(x)] + Quiet(n - 1)) == Handler(k, x, n)
  {
    hide Handler, Step;
    HandlerStep(k, x, n - 1);
    var es := [Key(x)] + Quiet(n - 1);
    if n > 1 {
      HandlerRuns(k, x, n - 1);
      assert es[..n - 1] == [Key(x)] + Quiet(n - 2);
    } else {
      assert es[..0] == [] && es == [Key(x)];
      HandlerStart(k, x);
    }
  }

  lemma HandlerStart(k: Kernel, x: u32)
    requires RingInv(k.ring)
    ensures Handler(k, x, 0) == k
  {
  }

  lemma IdleMeans(k: Kernel)
    requires KernelInv(k) && k.interrupts
    ensures !k.halted && IdleInv(k) && |k.accepted| - |k.read| == k.ring.numItems <= |k.ring.buff|
  {
  }

  /** The keys raised while interrupts were on, in order, less those that came when as many accepted keys
      were unread as the buffer has places. */
  function Admitted(buff: seq<u32>, events: seq<Event>): seq<u32> {
    if events == [] then []
    else
      var init, e := events[..|events| - 1], events[|events| - 1];
      var k := Exec(Boot(buff, false), init);
      Admitted(buff, init) + if e.Key? && k.interrupts && |k.accepted| - |k.read| < |buff| then [e.key] else []
  }

  /** The key the handler is busy with, if it is one of them. */
  function InHand(k: Kernel): seq<u32> {
    match k.isr
    case WLock(key) => if |k.accepted| - |k.read| < |k.ring.buff| then [key] else []
    case WTest(key) => if |k.accepted| - |k.read| < |k.ring.buff| then [key] else []
    case WStore(key) => [key]
    case WAdvance(key) => [key]
    case WWrap(key) => [key]
    case WUnlock(key) => [key]
    case WCount(key) => [key]
    case _ => []
  }

  lemma StepAdmits(k: Kernel, e: Event)
    requires KernelInv(k)
    ensures var t := Step(k, e);
            t.accepted + InHand(t) == k.accepted + InHand(k)
            + if e.Key? && k.interrupts && |k.accepted| - |k.read| < |k.ring.buff| then [e.key] else []
  {
    if k.isr != NoIsr {
      IsrAdmits(k);
    } else if e == Run {
      LoopAdmits(k);
    }
  }

  lemma IsrAdmits(k: Kernel)
    requires KernelInv(k) && k.isr != NoIsr
    ensures !k.interrupts && StepIsr(k).accepted + InHand(StepIsr(k)) == k.accepted + InHand(k)
  {
  }

  lemma LoopAdmits(k: Kernel)
    requires KernelInv(k) && k.isr == NoIsr
    ensures StepLoop(k).accepted == k.accepted && StepLoop(k).isr == NoIsr
  {
  }

  /** Over every interleaving the keys accepted are, in order and as they were pressed, exactly those; in
      the middle of a handler all but the one in hand. */
  lemma {:induction false} AcceptedAreAdmitted(buff: seq<u32>, events: seq<Event>)
    ensures var k := Exec(Boot(buff, false), events);
            && k.accepted + InHand(k) == Admitted(buff, events)
            && (k.isr == NoIsr ==> k.accepted == Admitted(buff, events))
  {
    hide KernelInv, Step;
    if events != [] {
      var init := events[..|events| - 1];
      AcceptedAreAdmitted(buff, init);
      ExecKeepsInv(buff, init);
      BufferKeepsLength(buff, false, init);
      StepAdmits(Exec(Boot(buff, false), init), events[|events| - 1]);
    }
  }

  lemma {:induction false} QuietAfter(buff: seq<u32>, events: seq<Event>, n: nat)
    ensures Exec(Boot(buff, false), events + Quiet(n)) == Exec(Exec(Boot(buff, false), events), Quiet(n))
    ensures Admitted(buff, events + Quiet(n)) == Admitted(buff, events)
  {
    hide Step;
    if n == 0 {
      assert events + Quiet(0) == events;
    } else {
      QuietAfter(buff, events, n - 1);
      assert (events + Quiet(n))[..|events| + n - 1] == events + Quiet(n - 1);
      assert Quiet(n)[..n - 1] == Quiet(n - 1);
    }
  }

  /** From the keyboard to the loop: when it has been quiet for long enough, the values the loop has read
      are the admitted keys, all of them, as pressed and in order. */
  lemma EveryAdmittedKeyIsRead(buff: seq<u32>, events: seq<Event>, n: nat)
    requires n > 16 * Exec(Boot(buff, false), events).ring.numItems + 37
    ensures Exec(Exec(Boot(buff, false), events), Quiet(n)).read == Admitted(buff, events)
  {
    hide Exec, Admitted;
    QuietKeyboardDrains(buff, events, n);
    QuietAfter(buff, events, n);
    AcceptedAreAdmitted(buff, events + Quiet(n));
  }

  /** A refused key changes nothing but the lock, whatever happens until the handler returns. */
  lemma RefusedKeyIsDropped(k: Kernel, e: Event, e': Event)
    requires !k.halted && k.isr == WRefuse
    ensures Step(Step(k, e), e') == k.(lock := false, interrupts := true, isr := NoIsr)
  {
  }

  lemma {:induction false} BufferKeepsLength(buff: seq<u32>, lock: bool, events: seq<Event>)
    ensures |Exec(Boot(buff, lock), events).ring.buff| == |buff|
  {
    hide Step;
    if events != [] {
      BufferKeepsLength(buff, lock, events[..|events| - 1]);
      StepKeepsLength(Exec(Boot(buff, lock), events[..|events| - 1]), events[|events| - 1]);
    }
  }

  lemma StepKeepsLength(k: Kernel, e: Event)
    ensures |Step(k, e).ring.buff| == |k.ring.buff|
  {
  }

  // ---------- A quiet keyboard ----------

  /** Nothing left to do: the loop is polling an empty queue. */
  predicate Drained(k: Kernel) {
    k.isr == NoIsr && k.loop == Check && k.ring.numItems == 0
  }

  function LoopRank(l: Loop): nat {
    match l
    case RUnlock => 11 case Sti => 10 case Handle => 9 case Check => 7 case Cli => 6 case RLock => 5
    case RTest => 4 case RLoad => 3 case RAdvance => 2 case RWrap => 1 case RCount => 0
  }

  function IsrRank(i: Isr): nat {
    match i
    case NoIsr => 0 case Iret => 1 case WRefuse => 2
    case WCount(_) => 20 case WUnlock(_) => 21 case WWrap(_) => 22 case WAdvance(_) => 23
    case WStore(_) => 24 case WTest(_) => 25 case WLock(_) => 26
  }

  /** A bound on the statements until the queue is drained, if no further key arrives. */
  function ToDrain(k: Kernel): nat {
    16 * k.ring.numItems + LoopRank(k.loop) + IsrRank(k.isr)
  }

  lemma IsrDrains(k: Kernel)
    requires KernelInv(k) && k.isr != NoIsr
    ensures ToDrain(Step(k, Run)) < ToDrain(k)
  {
  }

  lemma LoopDrains(k: Kernel)
    requires KernelInv(k) && k.isr == NoIsr && !Drained(k)
    ensures ToDrain(Step(k, Run)) < ToDrain(k)
  {
  }

  function Quiet(n: nat): seq<Event> {
    seq(n, i => Run)
  }

  lemma {:induction false} QuietKeepsInv(k: Kernel, n: nat)
    requires KernelInv(k)
    ensures KernelInv(Exec(k, Quiet(n)))
    ensures Drained(Exec(k, Quiet(n))) || ToDrain(Exec(k, Quiet(n))) + n <= ToDrain(k)
  {
    if n > 0 {
      assert Quiet(n)[..n - 1] == Quiet(n - 1);
      QuietKeepsInv(k, n - 1);
      var m := Exec(k, Quiet(n - 1));
      if m.isr != NoIsr {
        IsrKeepsInv(m);
        IsrDrains(m);
      } else {
        LoopKeepsInv(m);
        if !Drained(m) {
          LoopDrains(m);
        }
      }
    }
  }

  /** Wherever an interleaving stops, if the keyboard then stays quiet, every key that was accepted is
      read within 16 statements per queued item and 37 more. */
  lemma QuietKeyboardDrains(buff: seq<u32>, events: seq<Event>, n: nat)
    requires var k := Exec(Boot(buff, false), events); n > 16 * k.ring.numItems + 37
    ensures var t := Exec(Exec(Boot(buff, false), events), Quiet(n)); Drained(t) && t.read == t.accepted
  {
    hide Exec, Quiet, KernelInv, ToDrain;
    ExecKeepsInv(buff, events);
    var k := Exec(Boot(buff, false), events);
    QuietKeepsInv(k, n);
    DrainBound(k);
    DrainBound(Exec(k, Quiet(n)));
  }

  lemma DrainBound(k: Kernel)
    requires KernelInv(k)
    ensures 0 <= ToDrain(k) <= 16 * k.ring.numItems + 37
    ensures Drained(k) ==> k.read == k.accepted
  {
  }

  // ---------- The lock byte ----------

  /** cqueue_create does not set the lock.  If its byte happens to be nonzero, nothing is ever accepted. */
  lemma {:induction false} GarbageLockStarves(buff: seq<u32>, events: seq<Event>)
    ensures var k := Exec(Boot(buff, true), events);
            && k.lock && k.accepted == [] && k.read == [] && k.loop == Check && k.ring.numItems == 0
            && (k.isr == NoIsr || k.isr.WLock?)
  {
    if events != [] {
      GarbageLockStarves(buff, events[..|events| - 1]);
    }
  }

  /** Keys can get in exactly when the lock byte starts out clear and the buffer has a place. */
  lemma KeysCanGetIn(buff: seq<u32>, lock: bool)
    ensures (exists events :: Exec(Boot(buff, lock), events).accepted != []) <==> !lock && buff != []
  {
    if events :| Exec(Boot(buff, lock), events).accepted != [] {
      if lock {
        GarbageLockStarves(buff, events);
      } else if buff == [] {
        EmptyBufferStarves(events);
      }
    }
    if !lock && buff != [] {
      OneKeyGetsIn(buff);
    }
  }

  lemma {:induction false} EmptyBufferStarves(events: seq<Event>)
    ensures var k := Exec(Boot([], false), events); k.accepted == [] && k.ring.buff == []
  {
    hide KernelInv;
    if events != [] {
      EmptyBufferStarves(events[..|events| - 1]);
      ExecKeepsInv([], events[..|events| - 1]);
      EmptyBufferStep(Exec(Boot([], false), events[..|events| - 1]), events[|events| - 1]);
    }
  }

  lemma EmptyBufferStep(k: Kernel, event: Event)
    requires KernelInv(k) && k.accepted == [] && k.ring.buff == []
    ensures Step(k, event).accepted == [] && Step(k, event).ring.buff == []
  {
  }

  /** The statements of the handler on an empty ring, as far as the store. */
  lemma FirstKeyIsStored(buff: seq<u32>)
    requires buff != []
    ensures Exec(Boot(buff, false), [Key(0), Run, Run, Run])
         == Boot(buff[0 := 0], false).(lock := true, interrupts := false, isr := WAdvance(0))
  {
    var k, es := Boot(buff, false), [Key(0), Run, Run, Run];
    ExecStep(k, es, 0);
    ExecStep(k, es, 1);
    ExecStep(k, es, 2);
    ExecStep(k, es, 3);
    assert es[..4] == es;
  }

  lemma OneKeyGetsIn(buff: seq<u32>)
    requires buff != []
    ensures exists events :: Exec(Boot(buff, false), events).accepted != []
  {
    hide Exec;
    var k, es := Boot(buff, false), [Key(0), Run, Run, Run, Run, Run, Run, Run];
    FirstKeyIsStored(buff);
    assert es[..4] == [Key(0), Run, Run, Run];
    ExecStep(k, es, 4);
    ExecStep(k, es, 5);
    ExecStep(k, es, 6);
    ExecStep(k, es, 7);
    assert es[..8] == es;
    assert Exec(k, es).accepted == [0];
  }

  lemma ExecStep(k: Kernel, events: seq<Event>, i: nat)
    requires i < |events|
    ensures Exec(k, events[..i + 1]) == Step(Exec(k, events[..i]), events[i])
    ensures Exec(k, events[..0]) == k
  {
    assert events[..i + 1][..i] == events[..i];
  }
}
