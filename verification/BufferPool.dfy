/** The lock-free frame pool: a 64-bit set of free slots, taken with compare-exchange and given
    back with fetch-or by any number of threads. */
module BufferPool {
  import opened Arith
  import opened Bytes

  type Mask = bv64
  type Slot = s: bv7 | s < 64
  type Count = s: bv7 | s <= 64

  /** Slot `s` is free. */
  predicate Bit(m: Mask, s: Slot) {
    (m >> s) & 1 == 1
  }

  function One(s: Slot): Mask {
    1 << s
  }

  lemma AndBits(a: Mask, b: Mask, t: Slot)
    ensures Bit(a & b, t) <==> Bit(a, t) && Bit(b, t)
  {}
  lemma OrBits(a: Mask, b: Mask, t: Slot)
    ensures Bit(a | b, t) <==> Bit(a, t) || Bit(b, t)
  {}
  lemma NotBits(a: Mask, t: Slot)
    ensures Bit(!a, t) <==> !Bit(a, t)
  {}
  lemma OneBits(s: Slot, t: Slot)
    ensures Bit(One(s), t) <==> t == s
  {}

  function Without(m: Mask, s: Slot): Mask {
    m & !One(s)
  }

  function With(m: Mask, s: Slot): Mask {
    m | One(s)
  }

  lemma WithoutBits(m: Mask, s: Slot, t: Slot)
    ensures Bit(Without(m, s), t) <==> Bit(m, t) && t != s
  {
    hide Bit, One;
    AndBits(m, !One(s), t);
    NotBits(One(s), t);
    OneBits(s, t);
  }

  lemma WithBits(m: Mask, s: Slot, t: Slot)
    ensures Bit(With(m, s), t) <==> Bit(m, t) || t == s
  {
    hide Bit, One;
    OrBits(m, One(s), t);
    OneBits(s, t);
  }

  function FullMask(capacity: Count): Mask
  {
    if capacity == 64 then 0xFFFF_FFFF_FFFF_FFFF else (1 << capacity) - 1
  }

  lemma FullMaskBits(capacity: Count, t: Slot)
    requires 0 < capacity
    ensures Bit(FullMask(capacity), t) <==> t < capacity
  {}

  lemma ZeroBits(s: Slot)
    ensures !Bit(0, s)
  {}

  /** Some bit is set at `s` or above. */
  predicate SomeFrom(m: Mask, s: Slot) {
    m >> s != 0
  }

  lemma ShiftOut(m: Mask, s: Slot)
    requires SomeFrom(m, s) && !Bit(m, s)
    ensures s + 1 < 64 && SomeFrom(m, s + 1)
  {}

  /** The lowest set bit from `s` on. */
  function FirstFrom(m: Mask, s: Slot): (r: Slot)
    requires SomeFrom(m, s)
    decreases 64 - s
  {
    if Bit(m, s) then s
    else
      ShiftOut(m, s);
      FirstFrom(m, s + 1)
  }

  lemma {:induction false} FirstFromIsSet(m: Mask, s: Slot)
    requires SomeFrom(m, s)
    ensures s <= FirstFrom(m, s) && Bit(m, FirstFrom(m, s))
    decreases 64 - s
  {
    hide Bit, SomeFrom;
    if !Bit(m, s) {
      ShiftOut(m, s);
      FirstFromIsSet(m, s + 1);
    }
  }

  lemma {:induction false} FirstFromIsFirst(m: Mask, s: Slot, t: Slot)
    requires SomeFrom(m, s) && s <= t < FirstFrom(m, s)
    ensures !Bit(m, t)
    decreases 64 - s
  {
    hide Bit, SomeFrom;
    if !Bit(m, s) {
      ShiftOut(m, s);
      if t != s {
        FirstFromIsFirst(m, s + 1, t);
      }
    }
  }

  /** `trailing_zeros` of a non-zero mask. */
  function Lowest(m: Mask): Slot
    requires m != 0
  {
    FirstFrom(m, 0)
  }

  lemma LowestIsLowest(m: Mask)
    requires m != 0
    ensures Bit(m, Lowest(m)) && forall t: Slot :: t < Lowest(m) ==> !Bit(m, t)
  {
    hide Bit;
    FirstFromIsSet(m, 0);
    forall t: Slot | t < Lowest(m) ensures !Bit(m, t) {
      FirstFromIsFirst(m, 0, t);
    }
  }

  // ----- Counting bits -----

  /** `count_ones` of the bits below `k`. */
  function OnesBelow(m: Mask, k: Count): nat
    decreases k
  {
    if k == 0 then 0 else OnesBelow(m, k - 1) + if Bit(m, k - 1) then 1 else 0
  }

  lemma {:induction false} OnesWithout(m: Mask, s: Slot, k: Count)
    requires Bit(m, s)
    ensures OnesBelow(Without(m, s), k) == OnesBelow(m, k) - if s < k then 1 else 0
    decreases k
  {
    hide Bit, Without;
    if k > 0 {
      OnesWithout(m, s, k - 1);
      WithoutBits(m, s, k - 1);
    }
  }

  lemma {:induction false} OnesWith(m: Mask, s: Slot, k: Count)
    requires !Bit(m, s)
    ensures OnesBelow(With(m, s), k) == OnesBelow(m, k) + if s < k then 1 else 0
    decreases k
  {
    hide Bit, With;
    if k > 0 {
      OnesWith(m, s, k - 1);
      WithBits(m, s, k - 1);
    }
  }

  lemma {:induction false} OnesFull(capacity: Count, k: Count)
    requires 0 < capacity
    ensures OnesBelow(FullMask(capacity), k) == if k <= capacity then k as nat else capacity as nat
    decreases k
  {
    hide Bit, FullMask;
    if k > 0 {
      OnesFull(capacity, k - 1);
      FullMaskBits(capacity, k - 1);
      Successor(k);
    }
  }

  lemma Successor(k: Count)
    requires k > 0
    ensures k as nat == (k - 1) as nat + 1
  {}

  // ----- The pool shared by threads -----

  /** Where a thread is in `acquire`: outside, about to load, or about to compare-exchange against
      the mask it loaded when `at` operations had completed. */
  datatype Phase = Outside | AtLoad | AtCas(seen: Mask, at: nat)

  /** What `acquire` gives out. */
  datatype Handle = Handle(poolIndex: Slot)

  /** `held` lists the slots of the handles given out and not yet released; `completed` counts the
      operations that have taken effect. */
  datatype Pool = Pool(mask: Mask, held: multiset<Handle>, threads: map<nat, Phase>, completed: nat)

  datatype Event = Enter(t: nat) | Load(t: nat) | Cas(t: nat, spurious: bool) | Release(slot: Slot)

  /** What the step hands to the caller of `acquire`. */
  datatype Return = Nothing | Exhausted | Got(slot: Slot)

  function PhaseOf(p: Pool, t: nat): Phase {
    if t in p.threads then p.threads[t] else Outside
  }

  function NewPool(capacity: Count): Pool {
    Pool(FullMask(capacity), multiset{}, map[], 0)
  }

  function CasStep(p: Pool, t: nat, seen: Mask, spurious: bool): (Pool, Return)
    requires seen != 0
  {
    if p.mask == seen && !spurious then
      var slot := Lowest(seen);
      (Pool(Without(seen, slot), p.held + multiset{Handle(slot)}, p.threads[t := Outside], p.completed + 1), Got(slot))
    else
      (p.(threads := p.threads[t := AtLoad]), Nothing)
  }

  function Step(p: Pool, e: Event): (Pool, Return) {
    match e
    case Enter(t) =>
      if PhaseOf(p, t).Outside? then (p.(threads := p.threads[t := AtLoad]), Nothing) else (p, Nothing)
    case Load(t) =>
      if !PhaseOf(p, t).AtLoad? then (p, Nothing)
      else if p.mask == 0 then (p.(threads := p.threads[t := Outside]), Exhausted)
      else (p.(threads := p.threads[t := AtCas(p.mask, p.completed)]), Nothing)
    case Cas(t, spurious) =>
      var phase := PhaseOf(p, t);
      if phase.AtCas? && phase.seen != 0 then CasStep(p, t, phase.seen, spurious) else (p, Nothing)
    case Release(slot) =>
      (Pool(With(p.mask, slot), p.held - multiset{Handle(slot)}, p.threads, p.completed + 1), Nothing)
  }

  /** Each handle is released at most once: only a slot that is held can be released. */
  predicate Allowed(p: Pool, e: Event) {
    e.Release? ==> Handle(e.slot) in p.held
  }

  /** Every slot below the capacity is free or held by exactly one handle, and no other slot is
      either; the free bits and the handles together number the capacity. */
  ghost predicate Partitioned(capacity: Count, mask: Mask, held: multiset<Handle>) {
    && (forall s: Slot :: (if Bit(mask, s) then 1 else 0) + held[Handle(s)] == if s < capacity then 1 else 0)
    && OnesBelow(mask, 64) + |held| == capacity as nat
  }

  /** A loaded mask is not empty and is still current unless some operation has completed since. */
  predicate Current(p: Pool, phase: Phase) {
    phase.AtCas? ==> phase.seen != 0 && phase.at <= p.completed && (phase.at == p.completed ==> phase.seen == p.mask)
  }

  ghost predicate Inv(capacity: Count, p: Pool) {
    && Partitioned(capacity, p.mask, p.held)
    && forall t <- p.threads :: Current(p, p.threads[t])
  }

  lemma InitInv(capacity: Count)
    requires 0 < capacity
    ensures Inv(capacity, NewPool(capacity))
  {
    hide Bit, FullMask;
    forall s: Slot ensures Bit(FullMask(capacity), s) <==> s < capacity {
      FullMaskBits(capacity, s);
    }
    OnesFull(capacity, 64);
  }

  lemma TakePartitions(capacity: Count, mask: Mask, held: multiset<Handle>, slot: Slot)
    requires Partitioned(capacity, mask, held) && Bit(mask, slot)
    ensures Partitioned(capacity, Without(mask, slot), held + multiset{Handle(slot)})
  {
    hide Bit, Without;
    forall s: Slot ensures Bit(Without(mask, slot), s) <==> Bit(mask, s) && s != slot {
      WithoutBits(mask, slot, s);
    }
    OnesWithout(mask, slot, 64);
  }

  lemma GivePartitions(capacity: Count, mask: Mask, held: multiset<Handle>, slot: Slot)
    requires Partitioned(capacity, mask, held) && Handle(slot) in held
    ensures Partitioned(capacity, With(mask, slot), held - multiset{Handle(slot)})
  {
    hide Bit, With;
    assert held == (held - multiset{Handle(slot)}) + multiset{Handle(slot)};
    forall s: Slot ensures Bit(With(mask, slot), s) <==> Bit(mask, s) || s == slot {
      WithBits(mask, slot, s);
    }
    OnesWith(mask, slot, 64);
  }

  lemma StepInv(capacity: Count, p: Pool, e: Event)
    requires Inv(capacity, p) && Allowed(p, e)
    ensures Inv(capacity, Step(p, e).0)
  {
    hide Bit, Partitioned, Lowest;
    match e
    case Cas(t, spurious) =>
      var phase := PhaseOf(p, t);
      if phase.AtCas? && phase.seen != 0 && p.mask == phase.seen {
        LowestIsLowest(phase.seen);
        TakePartitions(capacity, p.mask, p.held, Lowest(phase.seen));
      }
    case Release(slot) => GivePartitions(capacity, p.mask, p.held, slot);
    case _ =>
  }

  function Run(capacity: Count, events: seq<Event>): Pool {
    if events == [] then NewPool(capacity) else Step(Run(capacity, events[..|events| - 1]), events[|events| - 1]).0
  }

  ghost predicate ValidRun(capacity: Count, events: seq<Event>) {
    events != [] ==>
      var front := events[..|events| - 1];
      ValidRun(capacity, front) && Allowed(Run(capacity, front), events[|events| - 1])
  }

  /** Whatever the interleaving of any number of threads: free bits and held slots partition
      0..capacity, no slot has two holders, and no bit at or above the capacity is ever set. */
  lemma {:induction false} RunsPartition(capacity: Count, events: seq<Event>)
    requires 0 < capacity && ValidRun(capacity, events)
    ensures Inv(capacity, Run(capacity, events))
    decreases |events|
  {
    hide Inv, Step;
    if events == [] {
      InitInv(capacity);
    } else {
      var front := events[..|events| - 1];
      RunsPartition(capacity, front);
      StepInv(capacity, Run(capacity, front), events[|events| - 1]);
    }
  }

  /** `acquire` returns `None` exactly when it loads an empty mask, and then every slot is held. */
  lemma ExhaustedMeansAllHeld(capacity: Count, p: Pool, e: Event)
    requires Inv(capacity, p) && Step(p, e).1.Exhausted?
    ensures forall s: Slot :: s < capacity ==> p.held[Handle(s)] == 1
    ensures |p.held| == capacity as nat
  {
    hide Bit;
    forall s: Slot ensures !Bit(p.mask, s) {
      ZeroBits(s);
    }
    NoOnes(64);
  }

  lemma {:induction false} NoOnes(k: Count)
    ensures OnesBelow(0, k) == 0
    decreases k
  {
    hide Bit;
    if k > 0 {
      NoOnes(k - 1);
      ZeroBits(k - 1);
    }
  }

  lemma SlotIsFreeOrHeld(capacity: Count, mask: Mask, held: multiset<Handle>, s: Slot)
    requires Partitioned(capacity, mask, held)
    ensures (if Bit(mask, s) then 1 else 0) + held[Handle(s)] == if s < capacity then 1 else 0
  {}

  /** A slot handed out was free, the lowest free one, below the capacity, and has one holder now. */
  lemma GotWasFree(capacity: Count, p: Pool, e: Event)
    requires Inv(capacity, p) && Step(p, e).1.Got?
    ensures var (q, r) := Step(p, e);
            && r.slot < capacity && p.held[Handle(r.slot)] == 0 && q.held[Handle(r.slot)] == 1
            && Bit(p.mask, r.slot) && forall s: Slot :: s < r.slot ==> p.held[Handle(s)] == 1
  {
    hide Bit, Without, Partitioned, Lowest;
    var slot := Step(p, e).1.slot;
    assert p.mask != 0 && slot == Lowest(p.mask);
    LowestIsLowest(p.mask);
    SlotIsFreeOrHeld(capacity, p.mask, p.held, slot);
    forall s: Slot | s < slot ensures p.held[Handle(s)] == 1 {
      SlotIsFreeOrHeld(capacity, p.mask, p.held, s);
    }
  }

  /** Lock-freedom: a compare-exchange that fails for a reason means that another thread's
      operation has taken effect since this thread loaded the mask. */
  lemma FailureMeansProgress(capacity: Count, p: Pool, t: nat)
    requires Inv(capacity, p) && PhaseOf(p, t).AtCas? && Step(p, Cas(t, false)).1.Nothing?
    ensures PhaseOf(p, t).at < p.completed
  {
    assert Current(p, p.threads[t]);
  }

  /** Thread `t` fails a compare-exchange for a reason: the mask is no longer the one it loaded. */
  predicate Refused(p: Pool, e: Event, t: nat) {
    e == Cas(t, false) && PhaseOf(p, t).AtCas? && p.mask != PhaseOf(p, t).seen
  }

  /** How often thread `t` was refused in a run. */
  function Failures(capacity: Count, events: seq<Event>, t: nat): nat {
    if events == [] then 0
    else
      var front := events[..|events| - 1];
      Failures(capacity, front, t) + if Refused(Run(capacity, front), events[|events| - 1], t) then 1 else 0
  }

  /** How often threads 0 .. k - 1 were refused. */
  function FailuresBelow(capacity: Count, events: seq<Event>, k: nat): nat {
    if k == 0 then 0 else FailuresBelow(capacity, events, k - 1) + Failures(capacity, events, k - 1)
  }

  /** Every refusal of a thread is paid for by an operation that completed after its load; between a
      load and its compare-exchange, by one that had completed before. */
  predicate Paid(p: Pool, t: nat, failures: nat) {
    failures <= p.completed && (PhaseOf(p, t).AtCas? ==> failures <= PhaseOf(p, t).at)
  }

  lemma StepPaid(capacity: Count, p: Pool, e: Event, t: nat, failures: nat)
    requires Inv(capacity, p) && Paid(p, t, failures)
    ensures Paid(Step(p, e).0, t, failures + if Refused(p, e, t) then 1 else 0)
  {
    hide Partitioned, Lowest;
    if Refused(p, e, t) {
      FailureMeansProgress(capacity, p, t);
    }
  }

  lemma {:induction false} RunPaid(capacity: Count, events: seq<Event>, t: nat)
    requires 0 < capacity && ValidRun(capacity, events)
    ensures Paid(Run(capacity, events), t, Failures(capacity, events, t))
    decreases |events|
  {
    hide Inv, Step, Refused, Paid;
    if events == [] {
      NothingPaid(capacity, t);
    } else {
      var front := events[..|events| - 1];
      RunPaid(capacity, front, t);
      RunsPartition(capacity, front);
      StepPaid(capacity, Run(capacity, front), events[|events| - 1], t, Failures(capacity, front, t));
    }
  }

  lemma NothingPaid(capacity: Count, t: nat)
    ensures Paid(NewPool(capacity), t, 0)
  {}

  /** Lock-freedom over whole runs: in any interleaving, no thread is refused more often than
      operations take effect, and `k` threads are refused at most `k` times as often. */
  lemma {:induction false} FailuresBounded(capacity: Count, events: seq<Event>, k: nat)
    requires 0 < capacity && ValidRun(capacity, events)
    ensures forall t: nat :: Failures(capacity, events, t) <= Run(capacity, events).completed
    ensures FailuresBelow(capacity, events, k) <= k * Run(capacity, events).completed
  {
    hide Run, ValidRun, Failures;
    forall t: nat ensures Failures(capacity, events, t) <= Run(capacity, events).completed {
      RunPaid(capacity, events, t);
    }
    if k > 0 {
      FailuresBounded(capacity, events, k - 1);
      assert k * Run(capacity, events).completed
             == (k - 1) * Run(capacity, events).completed + Run(capacity, events).completed;
    }
  }

  // ----- One call, one return -----

  /** Thread `t` enters `acquire`. */
  predicate Enters(p: Pool, e: Event, t: nat) {
    e == Enter(t) && PhaseOf(p, t).Outside?
  }

  /** The call of thread `t` returns, with a slot or with nothing. */
  predicate Returns(p: Pool, e: Event, t: nat) {
    (e == Load(t) || (e.Cas? && e.t == t)) && !Step(p, e).1.Nothing?
  }

  function Calls(capacity: Count, events: seq<Event>, t: nat): nat {
    if events == [] then 0
    else
      var front := events[..|events| - 1];
      Calls(capacity, front, t) + if Enters(Run(capacity, front), events[|events| - 1], t) then 1 else 0
  }

  function Returned(capacity: Count, events: seq<Event>, t: nat): nat {
    if events == [] then 0
    else
      var front := events[..|events| - 1];
      Returned(capacity, front, t) + if Returns(Run(capacity, front), events[|events| - 1], t) then 1 else 0
  }

  function Inside(p: Pool, t: nat): nat {
    if PhaseOf(p, t).Outside? then 0 else 1
  }

  /** A step that returns to its caller was taken inside `acquire` and leaves the thread outside. */
  lemma ReturnLeaves(p: Pool, e: Event, t: nat)
    requires Returns(p, e, t)
    ensures Inside(p, t) == 1 && Inside(Step(p, e).0, t) == 0
  {
    hide Lowest, Without, With;
  }

  lemma StepCalls(p: Pool, e: Event, t: nat)
    ensures Inside(Step(p, e).0, t) + (if Returns(p, e, t) then 1 else 0)
            == Inside(p, t) + if Enters(p, e, t) then 1 else 0
  {
    hide Lowest, Without, With;
  }

  /** In every run, each call of `acquire` returns at most once, with one slot or with none: a thread's
      returns are its calls, less the one it is in. */
  lemma {:induction false} CallsReturn(capacity: Count, events: seq<Event>, t: nat)
    ensures Returned(capacity, events, t) + Inside(Run(capacity, events), t) == Calls(capacity, events, t)
    decreases |events|
  {
    hide Step, Returns, Enters, Inside;
    if events == [] {
      NobodyInside(capacity, t);
    } else {
      var front := events[..|events| - 1];
      CallsReturn(capacity, front, t);
      StepCalls(Run(capacity, front), events[|events| - 1], t);
    }
  }

  lemma NobodyInside(capacity: Count, t: nat)
    ensures Inside(NewPool(capacity), t) == 0
  {}

  /** The steps of `events` from pool `p` on, and what the last one hands to its caller. */
  function RunFrom(p: Pool, events: seq<Event>): (Pool, Return) {
    if events == [] then (p, Nothing) else Step(RunFrom(p, events[..|events| - 1]).0, events[|events| - 1])
  }

  /** `n` rounds in which the weak compare-exchange fails for no reason. */
  function Spurious(t: nat, n: nat): seq<Event> {
    if n == 0 then [] else Spurious(t, n - 1) + [Load(t), Cas(t, true)]
  }

  lemma RunFromSnoc(p: Pool, events: seq<Event>, e: Event)
    ensures RunFrom(p, events + [e]) == Step(RunFrom(p, events).0, e)
  {
    assert (events + [e])[..|events|] == events;
  }

  lemma {:induction false} SpuriousChangesNothing(p: Pool, t: nat, n: nat)
    requires PhaseOf(p, t).Outside? && p.mask != 0
    ensures RunFrom(p, [Enter(t)] + Spurious(t, n)).0 == p.(threads := p.threads[t := AtLoad])
  {
    hide RunFrom, Lowest;
    var one := [Enter(t)];
    if n == 0 {
      RunFromSnoc(p, [], Enter(t));
      assert [] + [Enter(t)] == one && one + [] == one;
      assert RunFrom(p, []).0 == p by { NoSteps(p); }
    } else {
      var before := one + Spurious(t, n - 1);
      SpuriousChangesNothing(p, t, n - 1);
      RunFromSnoc(p, before, Load(t));
      RunFromSnoc(p, before + [Load(t)], Cas(t, true));
      assert before + [Load(t)] + [Cas(t, true)] == one + Spurious(t, n);
      assert p.threads[t := AtLoad][t := AtCas(p.mask, p.completed)][t := AtLoad] == p.threads[t := AtLoad];
    }
  }

  lemma NoSteps(p: Pool)
    ensures RunFrom(p, []) == (p, Nothing)
  {}

  /** A call that nobody disturbs, as steps: after any number of spurious failures it returns with the
      lowest free slot, takes its bit and gives out its handle; without a free slot it returns with
      nothing and changes nothing. */
  lemma AloneAcquires(p: Pool, t: nat, n: nat)
    requires PhaseOf(p, t).Outside?
    ensures p.mask != 0 ==>
              var (q, r) := RunFrom(p, [Enter(t)] + Spurious(t, n) + [Load(t)] + [Cas(t, false)]);
              && r == Got(Lowest(p.mask)) && q.mask == Without(p.mask, Lowest(p.mask))
              && q.held == p.held + multiset{Handle(Lowest(p.mask))} && PhaseOf(q, t).Outside?
    ensures p.mask == 0 ==>
              var (q, r) := RunFrom(p, [Enter(t), Load(t)]);
              r == Exhausted && q.mask == 0 && q.held == p.held && PhaseOf(q, t).Outside?
  {
    hide RunFrom, Lowest, Without;
    if p.mask != 0 {
      var before := [Enter(t)] + Spurious(t, n);
      SpuriousChangesNothing(p, t, n);
      RunFromSnoc(p, before, Load(t));
      RunFromSnoc(p, before + [Load(t)], Cas(t, false));
    } else {
      NoSteps(p);
      RunFromSnoc(p, [], Enter(t));
      RunFromSnoc(p, [Enter(t)], Load(t));
      assert [] + [Enter(t)] == [Enter(t)] && [Enter(t)] + [Load(t)] == [Enter(t), Load(t)];
    }
  }

  /** The count of free slots and the handles given out always add up to the capacity. */
  lemma FreeCount(capacity: Count, events: seq<Event>)
    requires 0 < capacity && ValidRun(capacity, events)
    ensures OnesBelow(Run(capacity, events).mask, 64) + |Run(capacity, events).held| == capacity as nat
  {
    RunsPartition(capacity, events);
  }

  // ----- The pool object -----

  lemma BitTest(m: Mask, s: Slot)
    ensures m & One(s) == 0 <==> !Bit(m, s)
  {}

  /** The pool as one thread sees it while no other interferes. */
  class SharedPool {
    const capacity: Count
    var freeMask: Mask

    constructor (capacity: Count)
      requires 0 < capacity
      ensures this.capacity == capacity && freeMask == NewPool(capacity).mask
    {
      this.capacity := capacity;
      freeMask := if capacity == 64 then 0xFFFF_FFFF_FFFF_FFFF else (1 << capacity) - 1;
    }

    /** `spurious` is how often the weak compare-exchange fails for no reason. */
    method Acquire(spurious: nat) returns (r: Option<Handle>)
      modifies this
      ensures old(freeMask) == 0 ==> r == None && freeMask == old(freeMask)
      ensures old(freeMask) != 0 ==>
                r == Some(Handle(Lowest(old(freeMask)))) && freeMask == Without(old(freeMask), Lowest(old(freeMask)))
    {
      var failures := spurious;
      while true
        invariant freeMask == old(freeMask)
        decreases failures
      {
        var mask := freeMask;
        if mask == 0 {
          return None;
        }
        var slot := Lowest(mask);
        var newMask := mask & !One(slot);
        if failures == 0 {
          freeMask := newMask;
          return Some(Handle(slot));
        }
        failures := failures - 1;
      }
    }

    /** `doubled` is the case the debug assertion catches. */
    method Release(handle: Handle) returns (doubled: bool)
      modifies this
      ensures freeMask == With(old(freeMask), handle.poolIndex)
      ensures doubled <==> Bit(old(freeMask), handle.poolIndex)
    {
      var bit := One(handle.poolIndex);
      doubled := freeMask & bit != 0;
      BitTest(freeMask, handle.poolIndex);
      freeMask := freeMask | bit;
    }
  }

  // ----- Slot addresses -----

  /** The frame size rounded up to whole 64-byte lines: `(n + 63)` with its low six bits cleared. */
  function AlignedSize(n: nat): nat {
    n + 63 - (n + 63) % 64
  }

  function SlotStart(n: nat, slot: nat): nat {
    slot * AlignedSize(n)
  }

  /** Every slot starts on a 64-byte boundary, is just large enough, and lies inside the allocation. */
  lemma SlotPlace(n: nat, capacity: nat, slot: nat)
    requires slot < capacity
    ensures SlotStart(n, slot) % 64 == 0 && n <= AlignedSize(n) < n + 64
    ensures SlotStart(n, slot) + AlignedSize(n) <= AlignedSize(n) * capacity
  {
    var lines := (n + 63) / 64;
    assert AlignedSize(n) == 64 * lines;
    assert SlotStart(n, slot) == 64 * (slot * lines);
    MulStrict(slot, capacity, AlignedSize(n));
  }

  /** No byte belongs to two slots. */
  lemma SlotsDisjoint(n: nat, i: nat, j: nat, at: nat)
    requires SlotStart(n, i) <= at < SlotStart(n, i) + AlignedSize(n)
    requires SlotStart(n, j) <= at < SlotStart(n, j) + AlignedSize(n)
    ensures i == j
  {
    if i < j {
      MulStrict(i, j, AlignedSize(n));
    } else if j < i {
      MulStrict(j, i, AlignedSize(n));
    }
  }

  /** The allocation is empty exactly for frames of size zero, so the layout's size is not always
      positive. */
  lemma AllocationEmpty(n: nat, capacity: nat)
    requires 0 < capacity
    ensures AlignedSize(n) * capacity == 0 <==> n == 0
  {
    if n > 0 {
      MulStrict(0, capacity, AlignedSize(n));
    }
  }
}
