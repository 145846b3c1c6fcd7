/**
 The connection pool under any interleaving of threads: every thread acquires, uses and releases
 connections; a step is one thread moving past one statement of pool.c. The mutex, the condition
 variable, spurious wake-ups and connections that go bad are part of the steps. `alive` is what
 `PQstatus` answers for each connection; only calls on a connection change it, so it can turn bad
 while a thread uses it.
 */
module PoolSteps {
  import opened Tables
  import opened Pool

  datatype Pc =
    | Idle
    | AcqLock                      // at pthread_mutex_lock
    | AcqScan(at: nat)             // holds the lock, about to look at slot `at`
    | AcqWait                      // inside pthread_cond_wait, lock given up
    | AcqWoken                     // woken inside pthread_cond_wait, wants the lock back
    | AcqLooping                   // holds the lock again, about to unlock and start over
    | Using(slot: nat)             // psql_pool_acquire has returned conns[slot]
    | RelLock(slot: nat)           // psql_pool_release( conns[slot] ), at pthread_mutex_lock
    | RelScan(slot: nat, i: int)   // holds the lock, about to look at conns[i]
    | RelUnlock                    // slot made available, about to unlock
    | RelSignal                    // unlocked, about to signal

  datatype State = State(conns: seq<int>, slots: seq<Slot>, alive: seq<bool>, lock: Option<nat>, pcs: seq<Pc>)

  function Go(s: State, t: nat, pc: Pc): State
    requires t < |s.pcs|
  {
    s.(pcs := s.pcs[t := pc])
  }

  ghost predicate Step(s: State, t: nat, s': State)
    requires t < |s.pcs| && |s.conns| == |s.slots|
  {
    match s.pcs[t]
    case Idle => s' == Go(s, t, AcqLock)
    case AcqLock => s.lock == None && s' == Go(s, t, AcqScan(0)).(lock := Some(t))
    case AcqScan(i) =>
      if i >= |s.slots| then s' == Go(s, t, AcqWait).(lock := None)
      else if s.slots[i] == Available && Alive(s.alive, i) then
        s' == Go(s, t, Using(i)).(slots := s.slots[i := Held(t)], lock := None)
      else if s.slots[i] == Available then s' == Go(s, t, AcqScan(i + 1)).(slots := s.slots[i := Error])
      else s' == Go(s, t, AcqScan(i + 1))
    case AcqWait => s' == Go(s, t, AcqWoken)
    case AcqWoken => s.lock == None && s' == Go(s, t, AcqLooping).(lock := Some(t))
    case AcqLooping => s' == Go(s, t, AcqLock).(lock := None)
    case Using(k) =>
      || s' == Go(s, t, RelLock(k))
      || (k < |s.alive| && s' == Go(s, t, RelLock(k)).(alive := s.alive[k := false]))
    case RelLock(k) => s.lock == None && s' == Go(s, t, RelScan(k, |s.slots| - 1)).(lock := Some(t))
    case RelScan(k, i) =>
      if i < 0 || i >= |s.slots| || k >= |s.slots| then s' == Go(s, t, Idle).(lock := None)
      else if s.conns[i] == s.conns[k] then s' == Go(s, t, RelUnlock).(slots := s.slots[i := Available])
      else s' == Go(s, t, RelScan(k, i - 1))
    case RelUnlock => s' == Go(s, t, RelSignal).(lock := None)
    case RelSignal =>
      || (s' == Go(s, t, Idle) && forall w | 0 <= w < |s.pcs| :: s.pcs[w] != AcqWait)
      || exists w | 0 <= w < |s.pcs| :: s.pcs[w] == AcqWait && s' == Go(Go(s, t, Idle), w, AcqWoken)
  }

  /** After psql_pool_init: some slots failed, no thread is inside the pool yet. */
  ghost predicate Init(s: State, finished: set<nat>) {
    && |s.conns| == |s.slots| && AddressesOk(s.conns, finished) && s.lock == None
    && (forall i | 0 <= i < |s.slots| :: i in finished <==> !Alive(s.alive, i))
    && (forall i | 0 <= i < |s.slots| :: s.slots[i] == if i in finished then Error else Available)
    && (forall t | 0 <= t < |s.pcs| :: s.pcs[t] == Idle)
  }

  /** A run: any number of steps of any threads. */
  ghost predicate IsRun(run: seq<State>, finished: set<nat>) {
    && |run| > 0 && Init(run[0], finished)
    && forall n {:trigger StepAt(run, n)} | 0 < n < |run| :: StepAt(run, n)
  }

  ghost predicate StepAt(run: seq<State>, n: nat)
    requires 0 < n < |run|
  {
    StepsTo(run[n - 1], run[n])
  }

  ghost predicate StepsTo(s: State, s': State) {
    |s.conns| == |s.slots| && exists t | 0 <= t < |s.pcs| :: Step(s, t, s')
  }

  // ----- counting

  function Count<T>(s: seq<T>, p: T -> bool): nat {
    if s == [] then 0 else Count(s[..|s| - 1], p) + (if p(s[|s| - 1]) then 1 else 0)
  }

  lemma {:induction false} CountUpdate<T>(s: seq<T>, i: nat, x: T, p: T -> bool)
    requires i < |s|
    ensures Count(s[i := x], p) == Count(s, p) - (if p(s[i]) then 1 else 0) + (if p(x) then 1 else 0)
    decreases |s|
  {
    var front := s[..|s| - 1];
    if i == |s| - 1 {
      assert s[i := x][..|s| - 1] == front;
    } else {
      assert s[i := x][..|s| - 1] == front[i := x];
      CountUpdate(front, i, x, p);
    }
  }

  lemma {:induction false} CountNone<T>(s: seq<T>, p: T -> bool)
    ensures Count(s, p) == 0 <==> forall i | 0 <= i < |s| :: !p(s[i])
    decreases |s|
  {
    if s != [] {
      CountNone(s[..|s| - 1], p);
      assert forall i | 0 <= i < |s| - 1 :: s[i] == s[..|s| - 1][i];
    }
  }

  lemma {:induction false} CountSplit(s: seq<Slot>)
    ensures Count(s, IsAvailable) + Count(s, IsHeld) + Count(s, IsError) == |s|
    decreases |s|
  {
    if s != [] {
      CountSplit(s[..|s| - 1]);
    }
  }

  predicate IsAvailable(x: Slot) { x == Available }

  predicate IsHeld(x: Slot) { x.Held? }

  predicate IsError(x: Slot) { x == Error }

  /** Between making a slot available and signalling it. */
  predicate Pending(pc: Pc) { pc == RelUnlock || pc == RelSignal }

  /** Inside psql_pool_acquire and not waiting for a signal. */
  predicate Awake(pc: Pc) { pc == AcqLock || pc.AcqScan? || pc == AcqWoken || pc == AcqLooping }

  predicate Owns(pc: Pc) { pc.Using? || pc.RelLock? || pc.RelScan? }

  predicate HoldsLock(pc: Pc) { pc.AcqScan? || pc == AcqLooping || pc.RelScan? || pc == RelUnlock }

  // ----- the invariant

  ghost predicate LockOk(s: State) {
    && (s.lock.Some? ==> s.lock.value < |s.pcs|)
    && forall t | 0 <= t < |s.pcs| :: HoldsLock(s.pcs[t]) <==> s.lock == Some(t)
  }

  /** A held slot and the thread inside the pool that owns it point at each other. */
  ghost predicate OwnersOk(s: State) {
    && (forall t | 0 <= t < |s.pcs| :: OwnsHeldSlot(s, t))
    && (forall k | 0 <= k < |s.slots| :: HeldByOwner(s, k))
  }

  ghost predicate OwnsHeldSlot(s: State, t: nat)
    requires t < |s.pcs|
  {
    Owns(s.pcs[t]) ==> s.pcs[t].slot < |s.slots| && s.slots[s.pcs[t].slot] == Held(t)
  }

  ghost predicate HeldByOwner(s: State, k: nat)
    requires k < |s.slots|
  {
    s.slots[k].Held? ==>
      s.slots[k].thread < |s.pcs| && Owns(s.pcs[s.slots[k].thread]) && s.pcs[s.slots[k].thread].slot == k
  }

  ghost predicate ScansOk(s: State) {
    && (forall t | 0 <= t < |s.pcs| && s.pcs[t].AcqScan? ::
          s.pcs[t].at <= |s.slots| && forall j | 0 <= j < s.pcs[t].at :: s.slots[j] != Available)
    && (forall t | 0 <= t < |s.pcs| && s.pcs[t].RelScan? :: s.pcs[t].slot <= s.pcs[t].i < |s.slots|)
  }

  ghost predicate SlotsOk(s: State, finished: set<nat>) {
    && |s.conns| == |s.slots| && AddressesOk(s.conns, finished)
    && forall i | 0 <= i < |s.slots| && i in finished :: s.slots[i] == Error
  }

  ghost predicate Waiting(s: State) {
    exists t | 0 <= t < |s.pcs| :: s.pcs[t] == AcqWait
  }

  /** No lost wake-up: while anyone waits, every available slot is matched by a signal to come or a thread awake. */
  ghost predicate NoLostWakeup(s: State) {
    Waiting(s) ==> Count(s.slots, IsAvailable) <= Count(s.pcs, Pending) + Count(s.pcs, Awake)
  }

  ghost predicate PoolInv(s: State, finished: set<nat>) {
    && SlotsOk(s, finished) && LockOk(s) && OwnersOk(s) && ScansOk(s) && NoLostWakeup(s)
    && Count(s.slots, IsHeld) == Count(s.pcs, Owns)
  }

  lemma InitOk(s: State, finished: set<nat>)
    requires Init(s, finished)
    ensures PoolInv(s, finished)
  {
    CountNone(s.slots, IsHeld);
    CountNone(s.pcs, Owns);
  }

  /** The slot that the downward scan of a release reaches is the slot of its owner. */
  lemma ReleaseHitsOwnSlot(s: State, finished: set<nat>, t: nat)
    requires SlotsOk(s, finished) && OwnersOk(s) && ScansOk(s) && t < |s.pcs| && s.pcs[t].RelScan?
    requires s.conns[s.pcs[t].i] == s.conns[s.pcs[t].slot]
    ensures s.pcs[t].i == s.pcs[t].slot
  {
    assert OwnsHeldSlot(s, t);
  }

  /** This step makes a slot available again. */
  ghost predicate Frees(s: State, t: nat)
    requires t < |s.pcs| && |s.conns| == |s.slots|
  {
    && s.pcs[t].RelScan? && 0 <= s.pcs[t].i < |s.slots| && s.pcs[t].slot < |s.slots|
    && s.conns[s.pcs[t].i] == s.conns[s.pcs[t].slot]
  }

  lemma FreesHeldSlot(s: State, finished: set<nat>, t: nat)
    requires SlotsOk(s, finished) && OwnersOk(s) && ScansOk(s) && t < |s.pcs|
    ensures Frees(s, t) ==> s.pcs[t].i == s.pcs[t].slot && s.slots[s.pcs[t].i] == Held(t)
  {
    if Frees(s, t) {
      assert OwnsHeldSlot(s, t);
      ReleaseHitsOwnSlot(s, finished, t);
    }
  }

  lemma StepKeepsSlots(s: State, finished: set<nat>, t: nat, s': State)
    requires SlotsOk(s, finished) && t < |s.pcs| && Step(s, t, s')
    requires Frees(s, t) ==> s.slots[s.pcs[t].i] == Held(t)
    ensures SlotsOk(s', finished)
  {
  }

  lemma StepKeepsLock(s: State, t: nat, s': State)
    requires |s.conns| == |s.slots| && LockOk(s) && t < |s.pcs| && Step(s, t, s')
    ensures LockOk(s')
  {
  }

  lemma StepKeepsThreadOwner(s: State, t: nat, s': State, u: nat)
    requires |s.conns| == |s.slots| && t < |s.pcs| && u < |s.pcs| && Step(s, t, s')
    requires OwnsHeldSlot(s, t) && OwnsHeldSlot(s, u)
    requires s.pcs[t].RelScan? ==> 0 <= s.pcs[t].slot <= s.pcs[t].i < |s.slots|
    requires Frees(s, t) ==> s.slots[s.pcs[t].i] == Held(t)
    ensures |s'.pcs| == |s.pcs| && OwnsHeldSlot(s', u)
  {
  }

  lemma StepKeepsSlotOwner(s: State, t: nat, s': State, k: nat)
    requires |s.conns| == |s.slots| && t < |s.pcs| && k < |s.slots| && Step(s, t, s')
    requires OwnsHeldSlot(s, t) && HeldByOwner(s, k)
    requires s.pcs[t].RelScan? ==> 0 <= s.pcs[t].slot <= s.pcs[t].i < |s.slots|
    requires Frees(s, t) ==> s.pcs[t].i == s.pcs[t].slot
    ensures |s'.slots| == |s.slots| && HeldByOwner(s', k)
  {
  }

  lemma StepKeepsOwners(s: State, t: nat, s': State)
    requires |s.conns| == |s.slots| && OwnersOk(s) && t < |s.pcs| && Step(s, t, s')
    requires s.pcs[t].RelScan? ==> 0 <= s.pcs[t].slot <= s.pcs[t].i < |s.slots|
    requires Frees(s, t) ==> s.pcs[t].i == s.pcs[t].slot && s.slots[s.pcs[t].i] == Held(t)
    ensures OwnersOk(s')
  {
    assert OwnsHeldSlot(s, t);
    StepKeepsThreadOwner(s, t, s', t);
    StepKeepsSize(s, t, s');
    forall u | 0 <= u < |s'.pcs|
      ensures OwnsHeldSlot(s', u)
    {
      StepKeepsThreadOwner(s, t, s', u);
    }
    forall k | 0 <= k < |s'.slots|
      ensures HeldByOwner(s', k)
    {
      StepKeepsSlotOwner(s, t, s', k);
    }
  }

  lemma StepKeepsSize(s: State, t: nat, s': State)
    requires |s.conns| == |s.slots| && t < |s.pcs| && Step(s, t, s')
    ensures |s'.slots| == |s.slots| && |s'.pcs| == |s.pcs|
  {
  }

  lemma StepKeepsScans(s: State, t: nat, s': State)
    requires |s.conns| == |s.slots| && LockOk(s) && ScansOk(s) && t < |s.pcs| && Step(s, t, s')
    requires Owns(s.pcs[t]) ==> s.pcs[t].slot < |s.slots|
    ensures ScansOk(s')
  {
  }

  lemma StepKeepsShape(s: State, finished: set<nat>, t: nat, s': State)
    requires PoolInv(s, finished) && t < |s.pcs| && Step(s, t, s')
    ensures SlotsOk(s', finished) && LockOk(s') && OwnersOk(s') && ScansOk(s')
  {
    FreesHeldSlot(s, finished, t);
    assert OwnsHeldSlot(s, t);
    StepKeepsSlots(s, finished, t, s');
    StepKeepsLock(s, t, s');
    StepKeepsOwners(s, t, s');
    StepKeepsScans(s, t, s');
  }

  lemma ThreadTallies(pcs: seq<Pc>, t: nat, pc: Pc)
    requires t < |pcs|
    ensures Count(pcs[t := pc], Owns) == Count(pcs, Owns) - One(Owns(pcs[t])) + One(Owns(pc))
    ensures Count(pcs[t := pc], Pending) == Count(pcs, Pending) - One(Pending(pcs[t])) + One(Pending(pc))
    ensures Count(pcs[t := pc], Awake) == Count(pcs, Awake) - One(Awake(pcs[t])) + One(Awake(pc))
  {
    CountUpdate(pcs, t, pc, Owns);
    CountUpdate(pcs, t, pc, Pending);
    CountUpdate(pcs, t, pc, Awake);
  }

  lemma SlotTallies(slots: seq<Slot>, i: nat, x: Slot)
    requires i < |slots|
    ensures Count(slots[i := x], IsHeld) == Count(slots, IsHeld) - One(IsHeld(slots[i])) + One(IsHeld(x))
    ensures Count(slots[i := x], IsAvailable)
            == Count(slots, IsAvailable) - One(IsAvailable(slots[i])) + One(IsAvailable(x))
  {
    CountUpdate(slots, i, x, IsHeld);
    CountUpdate(slots, i, x, IsAvailable);
  }

  function One(b: bool): int { if b then 1 else 0 }

  /** Owned slots keep up with owners, and available slots with signals to come and threads awake. */
  ghost predicate Tallied(s: State, s': State) {
    && Count(s'.slots, IsHeld) - Count(s.slots, IsHeld) == Count(s'.pcs, Owns) - Count(s.pcs, Owns)
    && Count(s'.slots, IsAvailable) - Count(s.slots, IsAvailable)
       <= Count(s'.pcs, Pending) + Count(s'.pcs, Awake) - Count(s.pcs, Pending) - Count(s.pcs, Awake)
  }

  /** Steps that leave the slots alone. */
  lemma QuietTallies(s: State, t: nat, pc: Pc, s': State)
    requires t < |s.pcs| && s'.slots == s.slots && s'.pcs == s.pcs[t := pc] && Owns(pc) == Owns(s.pcs[t])
    ensures Count(s'.slots, IsHeld) - Count(s.slots, IsHeld) == Count(s'.pcs, Owns) - Count(s.pcs, Owns)
    ensures One(Pending(s.pcs[t])) + One(Awake(s.pcs[t])) <= One(Pending(pc)) + One(Awake(pc)) ==> Tallied(s, s')
  {
    ThreadTallies(s.pcs, t, pc);
  }

  /** A scan that meets an available slot takes it or writes it off. */
  lemma TakeTallies(s: State, t: nat, i: nat, x: Slot, pc: Pc, s': State)
    requires t < |s.pcs| && s.pcs[t].AcqScan? && i < |s.slots| && s.slots[i] == Available
    requires s'.slots == s.slots[i := x] && s'.pcs == s.pcs[t := pc]
    requires (x == Held(t) && pc == Using(i)) || (x == Error && pc == AcqScan(i + 1))
    ensures Tallied(s, s')
  {
    ThreadTallies(s.pcs, t, pc);
    SlotTallies(s.slots, i, x);
  }

  lemma FreeTallies(s: State, t: nat, i: nat, s': State)
    requires t < |s.pcs| && s.pcs[t].RelScan? && i < |s.slots| && s.slots[i] == Held(t)
    requires s'.slots == s.slots[i := Available] && s'.pcs == s.pcs[t := RelUnlock]
    ensures Tallied(s, s')
  {
    ThreadTallies(s.pcs, t, RelUnlock);
    SlotTallies(s.slots, i, Available);
  }

  /** How a step of one thread, other than a signal, changes the counts. */
  lemma StepTallies(s: State, t: nat, s': State)
    requires |s.conns| == |s.slots| && t < |s.pcs| && s.pcs[t] != RelSignal && Step(s, t, s')
    requires s.pcs[t].RelScan? ==> 0 <= s.pcs[t].i < |s.slots| && s.pcs[t].slot < |s.slots|
    requires Frees(s, t) ==> s.slots[s.pcs[t].i] == Held(t)
    ensures Count(s'.slots, IsHeld) - Count(s.slots, IsHeld) == Count(s'.pcs, Owns) - Count(s.pcs, Owns)
    ensures !(s.pcs[t].AcqScan? && s.pcs[t].at >= |s.slots|) ==> Tallied(s, s')
  {
    if Frees(s, t) {
      FreeTallies(s, t, s.pcs[t].i, s');
    } else if s.pcs[t].AcqScan? && s.pcs[t].at < |s.slots| && s.slots[s.pcs[t].at] == Available {
      TakeTallies(s, t, s.pcs[t].at, s'.slots[s.pcs[t].at], s'.pcs[t], s');
    } else {
      QuietTallies(s, t, s'.pcs[t], s');
    }
  }

  lemma StepCounts(s: State, finished: set<nat>, t: nat, s': State)
    requires PoolInv(s, finished) && t < |s.pcs| && Step(s, t, s')
    ensures NoLostWakeup(s') && Count(s'.slots, IsHeld) == Count(s'.pcs, Owns)
  {
    if s.pcs[t] == RelSignal {
      SignalCounts(s, t, s');
    } else {
      FreesHeldSlot(s, finished, t);
      StepTallies(s, t, s');
      WaitersAfter(s, t, s');
      CountNone(s.slots, IsAvailable);
    }
  }

  /** Only the stepping thread can start to wait, and it does so with no slot available. */
  lemma WaitersAfter(s: State, t: nat, s': State)
    requires t < |s.pcs| && |s.conns| == |s.slots| && s.pcs[t] != RelSignal && Step(s, t, s')
    ensures Waiting(s') ==> Waiting(s) || (s.pcs[t].AcqScan? && s.pcs[t].at >= |s.slots| && s'.slots == s.slots)
  {
    if Waiting(s') {
      var w :| 0 <= w < |s'.pcs| && s'.pcs[w] == AcqWait;
      if w != t {
        assert s.pcs[w] == AcqWait;
      }
    }
  }

  lemma SignalCounts(s: State, t: nat, s': State)
    requires |s.conns| == |s.slots| && NoLostWakeup(s) && Count(s.slots, IsHeld) == Count(s.pcs, Owns)
    requires t < |s.pcs| && s.pcs[t] == RelSignal && Step(s, t, s')
    ensures NoLostWakeup(s') && Count(s'.slots, IsHeld) == Count(s'.pcs, Owns)
  {
    SignalTallies(s.pcs, t, 0, false);
    if exists w | 0 <= w < |s.pcs| :: s.pcs[w] == AcqWait && s' == Go(Go(s, t, Idle), w, AcqWoken) {
      var w :| 0 <= w < |s.pcs| && s.pcs[w] == AcqWait && s' == Go(Go(s, t, Idle), w, AcqWoken);
      SignalTallies(s.pcs, t, w, true);
      assert Waiting(s);
    } else {
      assert !Waiting(s');
    }
  }

  /** A signal that reaches a waiter turns a pending signal into a thread awake. */
  lemma SignalTallies(pcs: seq<Pc>, t: nat, w: nat, wakes: bool)
    requires t < |pcs| && pcs[t] == RelSignal && (wakes ==> w < |pcs| && pcs[w] == AcqWait)
    ensures var pcs' := if wakes then pcs[t := Idle][w := AcqWoken] else pcs[t := Idle];
            && Count(pcs', Owns) == Count(pcs, Owns)
            && (wakes ==> Count(pcs', Pending) + Count(pcs', Awake) == Count(pcs, Pending) + Count(pcs, Awake))
  {
    CountUpdate(pcs, t, Idle, Pending);
    CountUpdate(pcs, t, Idle, Awake);
    CountUpdate(pcs, t, Idle, Owns);
    if wakes {
      CountUpdate(pcs[t := Idle], w, AcqWoken, Pending);
      CountUpdate(pcs[t := Idle], w, AcqWoken, Awake);
      CountUpdate(pcs[t := Idle], w, AcqWoken, Owns);
    }
  }

  lemma StepKeepsInv(s: State, finished: set<nat>, s': State)
    requires PoolInv(s, finished) && StepsTo(s, s')
    ensures PoolInv(s', finished)
  {
    var t :| 0 <= t < |s.pcs| && Step(s, t, s');
    StepKeepsShape(s, finished, t, s');
    StepCounts(s, finished, t, s');
  }

  lemma {:induction false} RunKeepsInv(run: seq<State>, finished: set<nat>, n: nat)
    requires IsRun(run, finished) && n < |run|
    ensures PoolInv(run[n], finished)
  {
    if n == 0 {
      InitOk(run[0], finished);
    } else {
      RunKeepsInv(run, finished, n - 1);
      assert StepAt(run, n);
      StepKeepsInv(run[n - 1], finished, run[n]);
    }
  }

  // ----- what every interleaving guarantees

  /** No connection is in the hands of two threads, from acquire until it is released, and no failed one in anybody's. */
  lemma ExclusiveUse(run: seq<State>, finished: set<nat>, n: nat, t: nat, u: nat)
    requires IsRun(run, finished) && n < |run| && t < |run[n].pcs| && u < |run[n].pcs| && t != u
    requires Owns(run[n].pcs[t]) && Owns(run[n].pcs[u])
    ensures run[n].pcs[t].slot < |run[n].conns| && run[n].pcs[u].slot < |run[n].conns|
    ensures run[n].pcs[t].slot !in finished
    ensures run[n].conns[run[n].pcs[t].slot] != run[n].conns[run[n].pcs[u].slot]
  {
    RunKeepsInv(run, finished, n);
    var s := run[n];
    assert OwnsHeldSlot(s, t) && OwnsHeldSlot(s, u);
  }

  // ----- the scan as one atomic pass

  /** While a thread scans, only that thread changes the slots. */
  lemma OnlyLockHolderWrites(s: State, t: nat, u: nat, s': State)
    requires |s.conns| == |s.slots| && LockOk(s) && t < |s.pcs| && u < |s.pcs| && t != u
    requires HoldsLock(s.pcs[t]) && Step(s, u, s')
    ensures s'.slots == s.slots && (s'.pcs[t] == s.pcs[t])
  {
    assert s.lock == Some(t) && !HoldsLock(s.pcs[u]);
  }

  /** The first `at` slots of `before` have been passed: their available ones had gone bad. */
  ghost predicate Scanned(before: State, after: State, at: nat) {
    && |after.slots| == |before.slots| && at <= |before.slots|
    && (forall j | 0 <= j < at ::
          after.slots[j] == if before.slots[j] == Available then Error else before.slots[j])
    && (forall j | 0 <= j < at :: !(before.slots[j] == Available && Alive(before.alive, j)))
    && (forall j | at <= j < |before.slots| :: after.slots[j] == before.slots[j])
    && SameStatus(before, after, at)
  }

  /** The available connections from `at` on are alive or not as before. */
  ghost predicate SameStatus(before: State, after: State, at: nat) {
    forall j | at <= j < |before.slots| ::
      before.slots[j] == Available ==> Alive(after.alive, j) == Alive(before.alive, j)
  }

  lemma {:induction false} ScanSoFar(run: seq<State>, finished: set<nat>, t: nat, m: nat, n: nat)
    requires IsRun(run, finished) && m <= n < |run| && t < |run[0].pcs|
    requires forall x | m <= x <= n :: t < |run[x].pcs| && run[x].pcs[t].AcqScan?
    requires run[m].pcs[t] == AcqScan(0)
    ensures Scanned(run[m], run[n], run[n].pcs[t].at)
  {
    if m < n {
      ScanSoFar(run, finished, t, m, n - 1);
      ScanStep(run, finished, t, n);
    }
  }

  /** One step, of whatever thread, while `t` holds the lock. */
  lemma ScanStep(run: seq<State>, finished: set<nat>, t: nat, n: nat)
    requires IsRun(run, finished) && 0 < n < |run| && t < |run[n - 1].pcs| && HoldsLock(run[n - 1].pcs[t])
    ensures |run[n - 1].conns| == |run[n - 1].slots| && t < |run[n].pcs| && run[n].conns == run[n - 1].conns
    ensures run[n - 1].pcs[t].AcqScan? ==> run[n - 1].pcs[t].at <= |run[n - 1].slots|
    ensures Step(run[n - 1], t, run[n]) || (run[n].slots == run[n - 1].slots && run[n].pcs[t] == run[n - 1].pcs[t])
    ensures SameStatus(run[n - 1], run[n], 0)
  {
    var s, s' := run[n - 1], run[n];
    assert StepAt(run, n);
    RunKeepsInv(run, finished, n - 1);
    var u :| 0 <= u < |s.pcs| && Step(s, u, s');
    StepKeepsSize(s, u, s');
    assert OwnsHeldSlot(s, u);
    StepKeepsStatus(s, u, s');
    if u != t {
      OnlyLockHolderWrites(s, t, u, s');
    }
  }

  /** A connection changes its status only in the hands of the thread that holds it. */
  lemma StepKeepsStatus(s: State, u: nat, s': State)
    requires |s.conns| == |s.slots| && u < |s.pcs| && OwnsHeldSlot(s, u) && Step(s, u, s')
    ensures SameStatus(s, s', 0) && s'.conns == s.conns
    ensures forall j :: Alive(s'.alive, j) ==> Alive(s.alive, j)
  {
  }

  /**
   Whatever other threads do meanwhile, a scan that began with the slots of state m and ended in
   state n with connection k, or with none, changed the slots exactly as one undisturbed pass: k is the
   first slot that was available with a connection alive when the scan began.
   */
  lemma ScanIsAtomic(run: seq<State>, finished: set<nat>, t: nat, m: nat, n: nat)
    requires IsRun(run, finished) && m < n < |run| && t < |run[0].pcs|
    requires forall x | m <= x < n :: t < |run[x].pcs| && run[x].pcs[t].AcqScan?
    requires run[m].pcs[t] == AcqScan(0)
    requires t < |run[n].pcs| && (run[n].pcs[t].Using? || run[n].pcs[t] == AcqWait)
    ensures var slot := if run[n].pcs[t].Using? then run[n].pcs[t].slot else -1;
            PassResult(run[m].slots, run[n].slots, slot, t) && FirstAlive(run[m].slots, run[m].alive, slot)
  {
    ScanSoFar(run, finished, t, m, n - 1);
    ScanStep(run, finished, t, n);
  }

  lemma {:induction false} ReleaseSoFar(run: seq<State>, finished: set<nat>, t: nat, m: nat, n: nat)
    requires IsRun(run, finished) && m <= n < |run| && t < |run[0].pcs|
    requires forall x | m <= x <= n :: t < |run[x].pcs| && run[x].pcs[t].RelScan?
    ensures run[n].slots == run[m].slots && run[n].conns == run[m].conns && run[n].pcs[t].slot == run[m].pcs[t].slot
  {
    if m < n {
      ReleaseSoFar(run, finished, t, m, n - 1);
      ScanStep(run, finished, t, n);
    }
  }

  /**
   Whatever other threads do meanwhile, a release that holds the lock from state m until it is about to
   unlock in state n changed the slots exactly as one undisturbed `psql_pool_release`: the slot that the
   downward scan finds, its own, is available again, and the others are as they were.
   */
  lemma ReleaseIsAtomic(run: seq<State>, finished: set<nat>, t: nat, m: nat, n: nat)
    requires IsRun(run, finished) && m < n < |run| && t < |run[0].pcs|
    requires forall x | m <= x < n :: t < |run[x].pcs| && run[x].pcs[t].RelScan?
    requires t < |run[n].pcs| && !run[n].pcs[t].RelScan?
    ensures var k := run[m].pcs[t].slot;
            && k < |run[m].slots| && k < |run[m].conns| && run[m].slots[k] == Held(t) && run[n].pcs[t] == RelUnlock
            && LastIndex(run[m].conns, run[m].conns[k]) == k
            && run[n].slots == run[m].slots[k := Available]
  {
    ReleaseSoFar(run, finished, t, m, n - 1);
    RunKeepsInv(run, finished, n - 1);
    ScanStep(run, finished, t, n);
    FreesHeldSlot(run[n - 1], finished, t);
    var k := run[m].pcs[t].slot;
    assert OwnsHeldSlot(run[n - 1], t);
    DownwardScanFindsOwner(run[m].conns, finished, k);
  }

  // ----- which connections are written off

  lemma StepWritesOff(s: State, t: nat, s': State, i: nat)
    requires |s.conns| == |s.slots| && t < |s.pcs| && Step(s, t, s') && i < |s.slots|
    ensures i < |s'.slots|
    ensures s.slots[i] != Error && s'.slots[i] == Error ==> s.slots[i] == Available && !Alive(s.alive, i)
  {
  }

  /** In every run a slot is written off only from the available state, and only if its connection has gone bad. */
  lemma WrittenOffOnlyWhenBad(run: seq<State>, finished: set<nat>, n: nat, i: nat)
    requires IsRun(run, finished) && 0 < n < |run| && i < |run[n - 1].slots| && i < |run[n].slots|
    requires run[n - 1].slots[i] != Error && run[n].slots[i] == Error
    ensures run[n - 1].slots[i] == Available && !Alive(run[n - 1].alive, i)
  {
    var s, s' := run[n - 1], run[n];
    assert StepAt(run, n);
    var t :| 0 <= t < |s.pcs| && Step(s, t, s');
    StepWritesOff(s, t, s', i);
  }

  /** So no connection that is alive is ever lost to the pool. */
  lemma {:induction false} LiveConnectionsKept(run: seq<State>, finished: set<nat>, n: nat, i: nat)
    requires IsRun(run, finished) && n < |run| && i < |run[n].slots| && Alive(run[n].alive, i)
    ensures run[n].slots[i] != Error
  {
    if n > 0 {
      var s, s' := run[n - 1], run[n];
      assert StepAt(run, n);
      RunKeepsInv(run, finished, n - 1);
      var t :| 0 <= t < |s.pcs| && Step(s, t, s');
      assert OwnsHeldSlot(s, t);
      StepKeepsSize(s, t, s');
      StepKeepsStatus(s, t, s');
      StepWritesOff(s, t, s', i);
      LiveConnectionsKept(run, finished, n - 1, i);
    }
  }

  /** The way of a connection: one thread acquires, uses and releases the only slot, and everything is as at the start. */
  lemma UseAndReturn() returns (run: seq<State>)
    ensures IsRun(run, {}) && run[|run| - 1] == run[0] && run[0].slots == [Available]
    ensures exists n | 0 <= n < |run| :: run[n].pcs == [Using(0)] && run[n].slots == [Held(0)]
  {
    var s := State([7], [Available], [true], None, [Idle]);
    var held := s.(slots := [Held(0)]);
    run := [s, s.(pcs := [AcqLock]), s.(pcs := [AcqScan(0)], lock := Some(0)), held.(pcs := [Using(0)]),
            held.(pcs := [RelLock(0)]), held.(pcs := [RelScan(0, 0)], lock := Some(0)),
            s.(pcs := [RelUnlock], lock := Some(0)), s.(pcs := [RelSignal]), s];
    forall n {:trigger StepAt(run, n)} | 0 < n < |run|
      ensures StepAt(run, n)
    {
      assert Step(run[n - 1], 0, run[n]);
    }
    assert run[3].pcs == [Using(0)];
  }

  /** Every slot is available, written off, or held by exactly one thread that uses or returns it. */
  lemma SlotsConserved(run: seq<State>, finished: set<nat>, n: nat)
    requires IsRun(run, finished) && n < |run|
    ensures Count(run[n].slots, IsAvailable) + Count(run[n].pcs, Owns) + Count(run[n].slots, IsError) == |run[0].slots|
  {
    RunKeepsInv(run, finished, n);
    CountSplit(run[n].slots);
    SameSize(run, finished, n);
  }

  lemma {:induction false} SameSize(run: seq<State>, finished: set<nat>, n: nat)
    requires IsRun(run, finished) && n < |run|
    ensures |run[n].slots| == |run[0].slots| && |run[n].pcs| == |run[0].pcs|
  {
    if n > 0 {
      SameSize(run, finished, n - 1);
      assert StepAt(run, n);
    }
  }

  /** A slot that was written off stays written off. */
  lemma {:induction false} ErrorAbsorbs(run: seq<State>, finished: set<nat>, m: nat, n: nat, i: nat)
    requires IsRun(run, finished) && m <= n < |run|
    requires i < |run[m].slots| && run[m].slots[i] == Error
    ensures i < |run[n].slots| && run[n].slots[i] == Error
  {
    if m < n {
      ErrorAbsorbs(run, finished, m, n - 1, i);
      ErrorKeptAt(run, finished, n, i);
    }
  }

  lemma ErrorKeptAt(run: seq<State>, finished: set<nat>, n: nat, i: nat)
    requires IsRun(run, finished) && 0 < n < |run|
    requires i < |run[n - 1].slots| && run[n - 1].slots[i] == Error
    ensures i < |run[n].slots| && run[n].slots[i] == Error
  {
    var s, s' := run[n - 1], run[n];
    assert StepAt(run, n);
    RunKeepsInv(run, finished, n - 1);
    ErrorKept(s, finished, s', i);
  }

  lemma ErrorKept(s: State, finished: set<nat>, s': State, i: nat)
    requires PoolInv(s, finished) && StepsTo(s, s') && i < |s.slots| && s.slots[i] == Error
    ensures i < |s'.slots| && s'.slots[i] == Error
  {
    var t :| 0 <= t < |s.pcs| && Step(s, t, s');
    FreesHeldSlot(s, finished, t);
    StepKeepsError(s, t, s', i);
  }

  lemma StepKeepsError(s: State, t: nat, s': State, i: nat)
    requires |s.conns| == |s.slots| && t < |s.pcs| && Step(s, t, s')
    requires Frees(s, t) ==> s.slots[s.pcs[t].i] == Held(t)
    requires i < |s.slots| && s.slots[i] == Error
    ensures i < |s'.slots| && s'.slots[i] == Error
  {
  }

  /** If all that is left of acquiring threads is waiting, and no signal is under way, no slot is available. */
  lemma NobodyWaitsInVain(run: seq<State>, finished: set<nat>, n: nat, i: nat)
    requires IsRun(run, finished) && n < |run| && Waiting(run[n])
    requires forall t | 0 <= t < |run[n].pcs| :: !Awake(run[n].pcs[t]) && !Pending(run[n].pcs[t])
    requires i < |run[n].slots|
    ensures run[n].slots[i] != Available
  {
    RunKeepsInv(run, finished, n);
    CountNone(run[n].pcs, Awake);
    CountNone(run[n].pcs, Pending);
    CountNone(run[n].slots, IsAvailable);
    assert !IsAvailable(run[n].slots[i]);
  }

  /** A thread that is neither outside the pool, nor using a connection, nor waiting. */
  predicate Busy(pc: Pc) { Awake(pc) || Pending(pc) || pc.RelLock? || pc.RelScan? }

  /** The pool cannot hang on a waiting thread: as long as a slot is available, some thread inside can move. */
  lemma SomeThreadCanMove(run: seq<State>, finished: set<nat>, n: nat, i: nat) returns (t: nat, s': State)
    requires IsRun(run, finished) && n < |run| && Waiting(run[n])
    requires i < |run[n].slots| && run[n].slots[i] == Available
    ensures t < |run[n].pcs| && Busy(run[n].pcs[t]) && |run[n].conns| == |run[n].slots| && Step(run[n], t, s')
  {
    RunKeepsInv(run, finished, n);
    var s := run[n];
    CountNone(s.slots, IsAvailable);
    assert IsAvailable(s.slots[i]);
    CountNone(s.pcs, Awake);
    CountNone(s.pcs, Pending);
    if s.lock.Some? {
      t := s.lock.value;
    } else {
      t :| 0 <= t < |s.pcs| && (Awake(s.pcs[t]) || Pending(s.pcs[t]));
    }
    s' := Next(s, t);
  }

  /** One of the steps open to a busy thread that holds the lock or finds it free. */
  ghost function Next(s: State, t: nat): (s': State)
    requires t < |s.pcs| && Busy(s.pcs[t]) && |s.conns| == |s.slots|
    requires s.lock == None || HoldsLock(s.pcs[t])
    ensures Step(s, t, s')
  {
    match s.pcs[t]
    case AcqLock => Go(s, t, AcqScan(0)).(lock := Some(t))
    case AcqScan(i) =>
      if i >= |s.slots| then Go(s, t, AcqWait).(lock := None)
      else if s.slots[i] == Available && Alive(s.alive, i) then
        Go(s, t, Using(i)).(slots := s.slots[i := Held(t)], lock := None)
      else if s.slots[i] == Available then Go(s, t, AcqScan(i + 1)).(slots := s.slots[i := Error])
      else Go(s, t, AcqScan(i + 1))
    case AcqWoken => Go(s, t, AcqLooping).(lock := Some(t))
    case AcqLooping => Go(s, t, AcqLock).(lock := None)
    case RelLock(k) => Go(s, t, RelScan(k, |s.slots| - 1)).(lock := Some(t))
    case RelScan(k, i) =>
      if i < 0 || i >= |s.slots| || k >= |s.slots| then Go(s, t, Idle).(lock := None)
      else if s.conns[i] == s.conns[k] then Go(s, t, RelUnlock).(slots := s.slots[i := Available])
      else Go(s, t, RelScan(k, i - 1))
    case RelUnlock => Go(s, t, RelSignal).(lock := None)
    case RelSignal =>
      if exists w | 0 <= w < |s.pcs| :: s.pcs[w] == AcqWait then
        var w :| 0 <= w < |s.pcs| && s.pcs[w] == AcqWait; Go(Go(s, t, Idle), w, AcqWoken)
      else Go(s, t, Idle)
  }

  // ----- how long it takes

  /** More than the number of steps that a thread still takes inside the pool, counting those of a thread it wakes. */
  function Weight(pc: Pc, size: nat): nat {
    match pc
    case AcqScan(at) => if at < size then size - at + 1 else 1
    case AcqLock => size + 2
    case AcqLooping => size + 3
    case AcqWoken => size + 4
    case RelSignal => size + 5
    case RelUnlock => size + 6
    case RelScan(_, i) => size + 7 + if i < 0 then 0 else i + 1
    case RelLock(_) => size + 8 + size
    case _ => 0
  }

  function Work(pcs: seq<Pc>, size: nat): nat {
    if pcs == [] then 0 else Work(pcs[..|pcs| - 1], size) + Weight(pcs[|pcs| - 1], size)
  }

  lemma {:induction false} WorkUpdate(pcs: seq<Pc>, t: nat, pc: Pc, size: nat)
    requires t < |pcs|
    ensures Work(pcs[t := pc], size) == Work(pcs, size) - Weight(pcs[t], size) + Weight(pc, size)
    decreases |pcs|
  {
    var front := pcs[..|pcs| - 1];
    if t == |pcs| - 1 {
      assert pcs[t := pc][..|pcs| - 1] == front;
    } else {
      assert pcs[t := pc][..|pcs| - 1] == front[t := pc];
      WorkUpdate(front, t, pc, size);
    }
  }

  /** Every step of a busy thread, a signal to a waiter included, uses up work. */
  lemma BusyStepWorks(s: State, t: nat, s': State)
    requires |s.conns| == |s.slots| && t < |s.pcs| && Busy(s.pcs[t]) && Step(s, t, s')
    ensures |s'.slots| == |s.slots| && Work(s'.pcs, |s.slots|) < Work(s.pcs, |s.slots|)
  {
    var size := |s.slots|;
    if s.pcs[t] == RelSignal {
      WorkUpdate(s.pcs, t, Idle, size);
      if exists w | 0 <= w < |s.pcs| :: s.pcs[w] == AcqWait && s' == Go(Go(s, t, Idle), w, AcqWoken) {
        var w :| 0 <= w < |s.pcs| && s.pcs[w] == AcqWait && s' == Go(Go(s, t, Idle), w, AcqWoken);
        WorkUpdate(s.pcs[t := Idle], w, AcqWoken, size);
      }
    } else {
      WorkUpdate(s.pcs, t, s'.pcs[t], size);
      LighterPc(s, t, s');
      assert s'.pcs == s.pcs[t := s'.pcs[t]];
    }
  }

  lemma LighterPc(s: State, t: nat, s': State)
    requires |s.conns| == |s.slots| && t < |s.pcs| && Busy(s.pcs[t]) && s.pcs[t] != RelSignal && Step(s, t, s')
    ensures |s'.slots| == |s.slots| && |s'.pcs| == |s.pcs| && Weight(s'.pcs[t], |s.slots|) < Weight(s.pcs[t], |s.slots|)
  {
  }

  /** Step n of the run is one of a thread inside the pool: no new call, no spurious wake-up. */
  ghost predicate BusyStepAt(run: seq<State>, n: nat)
    requires 0 < n < |run|
  {
    var s := run[n - 1];
    |s.conns| == |s.slots| && exists t | 0 <= t < |s.pcs| :: Busy(s.pcs[t]) && Step(s, t, run[n])
  }

  /** Left to themselves the threads inside the pool come to rest: they take no more steps than there is work. */
  lemma {:induction false} BusyStepsBounded(run: seq<State>, finished: set<nat>, m: nat, n: nat)
    requires IsRun(run, finished) && m <= n < |run|
    requires forall x | m < x <= n :: BusyStepAt(run, x)
    ensures |run[n].slots| == |run[m].slots|
    ensures n - m + Work(run[n].pcs, |run[n].slots|) <= Work(run[m].pcs, |run[m].slots|)
  {
    if m < n {
      BusyStepsBounded(run, finished, m, n - 1);
      assert BusyStepAt(run, n);
      var s := run[n - 1];
      var t :| 0 <= t < |s.pcs| && Busy(s.pcs[t]) && Step(s, t, run[n]);
      BusyStepWorks(s, t, run[n]);
    }
  }

  /** No thread inside the pool can move. */
  ghost predicate AtRest(s: State) {
    |s.conns| == |s.slots| &&
    forall t, s' {:trigger Step(s, t, s')} | 0 <= t < |s.pcs| && Busy(s.pcs[t]) :: !Step(s, t, s')
  }

  /** This is so exactly when no thread is inside, other than waiting: there is no deadlock. */
  lemma AtRestExactly(s: State, finished: set<nat>)
    requires PoolInv(s, finished)
    ensures AtRest(s) <==> forall t | 0 <= t < |s.pcs| :: !Busy(s.pcs[t])
  {
    if t :| 0 <= t < |s.pcs| && Busy(s.pcs[t]) {
      var u := if s.lock.Some? then s.lock.value else t;
      assert Step(s, u, Next(s, u));
    }
  }

  /**
   So, in whatever order the scheduler lets them step, the threads inside the pool come to rest
   within the bound, and then no thread is left waiting while a slot is available: waiters have been
   served as far as slots go.
   */
  lemma WaitersServed(run: seq<State>, finished: set<nat>, m: nat, n: nat, i: nat)
    requires IsRun(run, finished) && m <= n < |run| && i < |run[n].slots|
    requires (forall x | m < x <= n :: BusyStepAt(run, x)) && AtRest(run[n])
    ensures n - m <= Work(run[m].pcs, |run[m].slots|)
    ensures Waiting(run[n]) ==> run[n].slots[i] != Available
  {
    BusyStepsBounded(run, finished, m, n);
    RunKeepsInv(run, finished, n);
    AtRestExactly(run[n], finished);
    if Waiting(run[n]) {
      NobodyWaitsInVain(run, finished, n, i);
    }
  }

  /** Once every connection has failed, no thread ever gets one again: acquirers wait for good. */
  lemma DeadPoolStaysDead(run: seq<State>, finished: set<nat>, m: nat, n: nat, t: nat)
    requires IsRun(run, finished) && m <= n < |run| && t < |run[n].pcs|
    requires forall i | 0 <= i < |run[m].slots| :: run[m].slots[i] == Error
    ensures !run[n].pcs[t].Using?
  {
    RunKeepsInv(run, finished, n);
    SameSize(run, finished, m);
    SameSize(run, finished, n);
    if run[n].pcs[t].Using? {
      assert OwnsHeldSlot(run[n], t);
      ErrorAbsorbs(run, finished, m, n, run[n].pcs[t].slot);
      assert false;
    }
  }
}
