// Locks created on first use: pthread_mutex_lock, pthread_mutex_unlock and
// CRYPTO_lock as interleaved steps of any number of threads over a table of lock
// pointers.  Every test, store, exchange, enter and leave is one atomic step.
module LazyLock {
  import opened Wrappers

  type Thread = nat

  // The address of a critical section; malloc may hand a freed one out again.
  type Section = nat

  // A critical section is a re-entrant lock.
  datatype Owner = Free | Owned(thread: Thread, depth: nat)

  // An allocated section, with the thread that made it and the lock it was made for.
  datatype Block = Block(owner: Owner, maker: Thread, index: int)

  // Where a thread is in its current call; lock tells a lock call from an unlock call.
  datatype Pc =
    | Idle
    | SawNull(index: int, lock: bool)                   // about to allocate
    | Installing(index: int, mine: Section, lock: bool) // about to compare and swap
    | Lost(index: int, mine: Section, lock: bool)       // about to free its own section
    | Ready(index: int, lock: bool)                     // about to enter or leave

  // slots holds the lock pointers that are not NULL.  held is history: how often each
  // thread has entered the section of an index without leaving it.
  datatype State = State(
    slots: map<int, Section>,
    heap: map<Section, Block>,
    pc: map<Thread, Pc>,
    held: map<(Thread, int), nat>)

  datatype Action =
    | Call(thread: Thread, index: int, lock: bool)
    | Malloc(thread: Thread, section: Section)
    | CompareAndSwap(thread: Thread)
    | FreeOwn(thread: Thread)
    | Enter(thread: Thread)
    | Leave(thread: Thread)

  function PcOf(s: State, t: Thread): Pc {
    if t in s.pc then s.pc[t] else Idle
  }

  function Held(s: State, t: Thread, i: int): nat {
    if (t, i) in s.held then s.held[(t, i)] else 0
  }

  ghost predicate Init(s: State) {
    s == State(map[], map[], map[], map[])
  }

  // numLocks is CRYPTO_NUM_LOCKS, or 1 for a single mutex.  Only a thread that holds a
  // lock may unlock it; an index out of range is ignored.
  ghost predicate CallStep(numLocks: nat, s: State, t: Thread, i: int, lock: bool, s': State) {
    && PcOf(s, t) == Idle
    && if i < 0 || i >= numLocks then s' == s
       else (lock || Held(s, t, i) > 0)
            && s' == s.(pc := s.pc[t := if i in s.slots then Ready(i, lock) else SawNull(i, lock)])
  }

  ghost predicate MallocStep(s: State, t: Thread, c: Section, s': State) {
    && PcOf(s, t).SawNull? && c !in s.heap
    && var i := s.pc[t].index;
       s' == s.(pc := s.pc[t := Installing(i, c, s.pc[t].lock)], heap := s.heap[c := Block(Free, t, i)])
  }

  ghost predicate CompareAndSwapStep(s: State, t: Thread, s': State) {
    && PcOf(s, t).Installing?
    && var Installing(i, c, lock) := s.pc[t];
       s' == if i in s.slots then s.(pc := s.pc[t := Lost(i, c, lock)])
             else s.(slots := s.slots[i := c], pc := s.pc[t := Ready(i, lock)])
  }

  ghost predicate FreeOwnStep(s: State, t: Thread, s': State) {
    && PcOf(s, t).Lost?
    && var Lost(i, c, lock) := s.pc[t];
       s' == s.(heap := s.heap - {c}, pc := s.pc[t := Ready(i, lock)])
  }

  // EnterCriticalSection reads the lock pointer afresh and waits while another thread
  // owns the section.
  ghost predicate EnterStep(s: State, t: Thread, s': State) {
    && PcOf(s, t).Ready? && s.pc[t].lock
    && var i := s.pc[t].index;
       && i in s.slots && s.slots[i] in s.heap
       && var b := s.heap[s.slots[i]];
          && (b.owner.Free? || b.owner.thread == t)
          && s' == s.(heap := s.heap[s.slots[i] := b.(owner := Entered(b.owner, t))],
                      held := s.held[(t, i) := Held(s, t, i) + 1], pc := s.pc[t := Idle])
  }

  ghost predicate LeaveStep(s: State, t: Thread, s': State) {
    && PcOf(s, t).Ready? && !s.pc[t].lock
    && var i := s.pc[t].index;
       && i in s.slots && s.slots[i] in s.heap && Held(s, t, i) > 0
       && var b := s.heap[s.slots[i]];
          && b.owner.Owned? && b.owner.thread == t
          && s' == s.(heap := s.heap[s.slots[i] := b.(owner := Left(b.owner))],
                      held := s.held[(t, i) := Held(s, t, i) - 1], pc := s.pc[t := Idle])
  }

  function Entered(o: Owner, t: Thread): Owner {
    if o.Free? then Owned(t, 1) else Owned(t, o.depth + 1)
  }

  function Left(o: Owner): Owner
    requires o.Owned?
  {
    if o.depth <= 1 then Free else Owned(o.thread, o.depth - 1)
  }

  ghost predicate Step(numLocks: nat, s: State, a: Action, s': State) {
    match a
    case Call(t, i, lock) => CallStep(numLocks, s, t, i, lock, s')
    case Malloc(t, c) => MallocStep(s, t, c, s')
    case CompareAndSwap(t) => CompareAndSwapStep(s, t, s')
    case FreeOwn(t) => FreeOwnStep(s, t, s')
    case Enter(t) => EnterStep(s, t, s')
    case Leave(t) => LeaveStep(s, t, s')
  }

  // ---- The invariant, one thread, index or section at a time ----

  ghost predicate IsMine(s: State, t: Thread, i: int, c: Section) {
    && c in s.heap && s.heap[c] == Block(Free, t, i)
    && (i in s.slots ==> s.slots[i] != c)
  }

  ghost predicate ThreadOk(s: State, t: Thread) {
    match PcOf(s, t)
    case Idle => true
    case SawNull(i, lock) => lock
    case Installing(i, c, lock) => lock && IsMine(s, t, i, c)
    case Lost(i, c, lock) => lock && IsMine(s, t, i, c) && i in s.slots
    case Ready(i, lock) => i in s.slots && (!lock ==> Held(s, t, i) > 0)
  }

  // An installed section is allocated and was made for this index; whoever owns it
  // holds the lock as often as the section has counted.
  ghost predicate IndexOk(s: State, i: int) {
    i in s.slots ==>
      && s.slots[i] in s.heap && s.heap[s.slots[i]].index == i
      && var o := s.heap[s.slots[i]].owner;
         o.Owned? ==> o.depth > 0 && Held(s, o.thread, i) == o.depth
  }

  ghost predicate HeldOk(s: State, t: Thread, i: int) {
    Held(s, t, i) > 0 ==>
      && i in s.slots && s.slots[i] in s.heap
      && s.heap[s.slots[i]].owner == Owned(t, Held(s, t, i))
  }

  // An allocated section is installed or still in the hands of the thread that made it.
  ghost predicate SectionOk(s: State, c: Section) {
    c in s.heap ==>
      var b := s.heap[c];
      || (b.index in s.slots && s.slots[b.index] == c)
      || ((PcOf(s, b.maker).Installing? || PcOf(s, b.maker).Lost?) && PcOf(s, b.maker).mine == c)
  }

  ghost predicate Inv(s: State) {
    && (forall t :: ThreadOk(s, t))
    && (forall i :: IndexOk(s, i))
    && (forall t, i :: HeldOk(s, t, i))
    && (forall c :: SectionOk(s, c))
  }

  // The index an action is about.
  function Subject(s: State, a: Action): int {
    if a.Call? then a.index else if PcOf(s, a.thread).Idle? then 0 else PcOf(s, a.thread).index
  }

  lemma ThreadStep(n: nat, s: State, a: Action, s': State, u: Thread)
    requires Inv(s) && Step(n, s, a, s')
    ensures ThreadOk(s', u)
  {
    assert ThreadOk(s, u) && ThreadOk(s, a.thread);
    var i := Subject(s, a);
    assert IndexOk(s, i) && HeldOk(s, a.thread, i) && HeldOk(s, u, i);
    hide Inv;
  }

  lemma IndexStep(n: nat, s: State, a: Action, s': State, j: int)
    requires Inv(s) && Step(n, s, a, s')
    ensures IndexOk(s', j)
  {
    assert ThreadOk(s, a.thread);
    var i := Subject(s, a);
    assert IndexOk(s, i) && IndexOk(s, j) && HeldOk(s, a.thread, i) && HeldOk(s, a.thread, j);
    hide Inv;
  }

  lemma HeldStep(n: nat, s: State, a: Action, s': State, u: Thread, j: int)
    requires Inv(s) && Step(n, s, a, s')
    ensures HeldOk(s', u, j)
  {
    assert ThreadOk(s, a.thread);
    var i := Subject(s, a);
    assert IndexOk(s, i) && IndexOk(s, j) && HeldOk(s, a.thread, i) && HeldOk(s, u, j);
    hide Inv;
  }

  lemma SectionStep(n: nat, s: State, a: Action, s': State, c: Section)
    requires Inv(s) && Step(n, s, a, s')
    ensures SectionOk(s', c)
  {
    assert ThreadOk(s, a.thread) && SectionOk(s, c);
    var i := Subject(s, a);
    assert IndexOk(s, i);
    hide Inv;
  }

  lemma StepInv(n: nat, s: State, a: Action, s': State)
    requires Inv(s) && Step(n, s, a, s')
    ensures Inv(s')
  {
    hide Step, ThreadOk, IndexOk, HeldOk, SectionOk;
    forall t ensures ThreadOk(s', t) { ThreadStep(n, s, a, s', t); }
    forall i ensures IndexOk(s', i) { IndexStep(n, s, a, s', i); }
    forall t, i ensures HeldOk(s', t, i) { HeldStep(n, s, a, s', t, i); }
    forall c ensures SectionOk(s', c) { SectionStep(n, s, a, s', c); }
  }

  // ---- Whole runs ----

  datatype Run = Run(states: seq<State>, actions: seq<Action>)

  // Every interleaving of the threads' steps, from the statically initialised locks.
  ghost predicate IsRun(n: nat, r: Run) {
    && |r.states| == |r.actions| + 1 && Init(r.states[0])
    && forall k | 0 <= k < |r.actions| :: Step(n, r.states[k], r.actions[k], r.states[k + 1])
  }

  lemma {:induction false} RunInv(n: nat, r: Run, k: nat)
    requires IsRun(n, r) && k < |r.states|
    ensures Inv(r.states[k])
  {
    if k > 0 {
      RunInv(n, r, k - 1);
      StepInv(n, r.states[k - 1], r.actions[k - 1], r.states[k]);
    }
  }

  // Entries into minus exits from lock i by thread t in the first k steps.
  function Balance(r: Run, k: nat, t: Thread, i: int): int
    requires k <= |r.actions| && |r.states| == |r.actions| + 1
  {
    if k == 0 then 0
    else
      var a := r.actions[k - 1];
      Balance(r, k - 1, t, i) +
        if a.thread != t || PcOf(r.states[k - 1], t).Idle? || PcOf(r.states[k - 1], t).index != i then 0
        else if a.Enter? then 1
        else if a.Leave? then -1
        else 0
  }

  lemma {:induction false} HeldIsBalance(n: nat, r: Run, k: nat, t: Thread, i: int)
    requires IsRun(n, r) && k < |r.states|
    ensures Held(r.states[k], t, i) == Balance(r, k, t, i)
  {
    if k > 0 {
      HeldIsBalance(n, r, k - 1, t, i);
      assert Step(n, r.states[k - 1], r.actions[k - 1], r.states[k]);
    }
  }

  // Mutual exclusion: two threads are never both inside the lock of one index.
  lemma MutualExclusion(n: nat, r: Run, k: nat, t: Thread, u: Thread, i: int)
    requires IsRun(n, r) && k < |r.states|
    requires Balance(r, k, t, i) > 0 && Balance(r, k, u, i) > 0
    ensures t == u
  {
    RunInv(n, r, k);
    HeldIsBalance(n, r, k, t, i);
    HeldIsBalance(n, r, k, u, i);
    assert HeldOk(r.states[k], t, i) && HeldOk(r.states[k], u, i);
  }

  // ---- The caller's view ----

  // What one step does to the call that a thread is in.
  lemma CallStepwise(n: nat, s: State, a: Action, s': State, t: Thread)
    requires Step(n, s, a, s')
    ensures a.thread != t ==> PcOf(s', t) == PcOf(s, t)
    ensures a.thread == t && a.Call? ==>
              && PcOf(s, t).Idle?
              && var pc := PcOf(s', t);
                 if 0 <= a.index < n then !pc.Idle? && pc.index == a.index && pc.lock == a.lock else pc.Idle?
    ensures a.thread == t && !a.Call? ==>
              && !PcOf(s, t).Idle?
              && var pc := PcOf(s', t);
                 || (pc.Idle? && if PcOf(s, t).lock then a.Enter? else a.Leave?)
                 || (&& !pc.Idle? && !a.Enter? && !a.Leave?
                     && pc.index == PcOf(s, t).index && pc.lock == PcOf(s, t).lock)
  {
  }

  // The call that thread t has made and not yet returned from after k steps.
  function Pending(r: Run, k: nat, t: Thread): Option<(int, bool)>
    requires k <= |r.actions| && |r.states| == |r.actions| + 1
  {
    if k == 0 || PcOf(r.states[k], t).Idle? then None
    else if r.actions[k - 1].Call? && r.actions[k - 1].thread == t then
      Some((r.actions[k - 1].index, r.actions[k - 1].lock))
    else Pending(r, k - 1, t)
  }

  lemma {:induction false} PendingIsPc(n: nat, r: Run, k: nat, t: Thread)
    requires IsRun(n, r) && k < |r.states|
    ensures var pc := PcOf(r.states[k], t);
            Pending(r, k, t) == if pc.Idle? then None else Some((pc.index, pc.lock))
    ensures Pending(r, k, t).Some? ==> 0 <= Pending(r, k, t).value.0 < n
  {
    hide Step;
    if k > 0 {
      PendingIsPc(n, r, k - 1, t);
      CallStepwise(n, r.states[k - 1], r.actions[k - 1], r.states[k], t);
    }
  }

  // A lock call is over, for its caller, when the thread is out of it; an unlock call
  // gives the lock up from its start.
  function Locked(r: Run, k: nat, t: Thread, i: int): int
    requires k <= |r.actions| && |r.states| == |r.actions| + 1
  {
    if k == 0 then 0
    else
      Locked(r, k - 1, t, i) +
        if Pending(r, k - 1, t) == Some((i, true)) && Pending(r, k, t) == None then 1
        else if r.actions[k - 1] == Call(t, i, false) then -1
        else 0
  }

  // A lock call does not return before its thread has entered, an unlock call not
  // before it has left, and neither does so twice.
  lemma {:induction false} LockedIsBalance(n: nat, r: Run, k: nat, t: Thread, i: int)
    requires IsRun(n, r) && k < |r.states| && 0 <= i < n
    ensures Balance(r, k, t, i) == Locked(r, k, t, i) + if Pending(r, k, t) == Some((i, false)) then 1 else 0
  {
    hide Step, Pending;
    PendingIsPc(n, r, k, t);
    if k > 0 {
      LockedIsBalance(n, r, k - 1, t, i);
      PendingIsPc(n, r, k - 1, t);
      CallStepwise(n, r.states[k - 1], r.actions[k - 1], r.states[k], t);
    }
  }

  // Mutual exclusion for callers: between the return of a lock call and the unlock call
  // that matches it, the thread owns the installed section, and no other thread is
  // between two such calls on the same lock.
  lemma ExclusionBetweenCalls(n: nat, r: Run, k: nat, t: Thread, i: int)
    requires IsRun(n, r) && k < |r.states| && 0 <= i < n
    requires Locked(r, k, t, i) > 0
    ensures i in r.states[k].slots && r.states[k].slots[i] in r.states[k].heap
    ensures var o := r.states[k].heap[r.states[k].slots[i]].owner;
            o.Owned? && o.thread == t && o.depth == Balance(r, k, t, i)
    ensures forall u :: u != t ==> Locked(r, k, u, i) <= 0
  {
    hide Locked, Pending;
    LockedIsBalance(n, r, k, t, i);
    HeldIsBalance(n, r, k, t, i);
    RunInv(n, r, k);
    assert HeldOk(r.states[k], t, i);
    forall u | u != t
      ensures Locked(r, k, u, i) <= 0
    {
      LockedIsBalance(n, r, k, u, i);
      if Locked(r, k, u, i) > 0 {
        MutualExclusion(n, r, k, t, u, i);
      }
    }
  }

  // The k-th state is the first in which t is out of the call that it makes in step j.
  ghost predicate Returns(r: Run, j: nat, k: nat, t: Thread) {
    && j < k < |r.states|
    && PcOf(r.states[k], t).Idle?
    && forall p | j < p < k :: !PcOf(r.states[p], t).Idle?
  }

  // While a call lasts it stays at its index, and nothing is entered or left.
  lemma {:induction false} DuringCall(n: nat, r: Run, j: nat, p: nat, t: Thread)
    requires IsRun(n, r) && j < p < |r.states|
    requires r.actions[j].Call? && r.actions[j].thread == t && 0 <= r.actions[j].index < n
    requires forall q | j < q < p :: !PcOf(r.states[q], t).Idle?
    ensures p == j + 1 ==> !PcOf(r.states[p], t).Idle?
    ensures var pc := PcOf(r.states[p], t);
            !pc.Idle? ==>
              && pc.index == r.actions[j].index && pc.lock == r.actions[j].lock
              && forall i :: Balance(r, p, t, i) == Balance(r, j, t, i)
  {
    hide Step;
    CallStepwise(n, r.states[p - 1], r.actions[p - 1], r.states[p], t);
    if p > j + 1 {
      DuringCall(n, r, j, p - 1, t);
    }
  }

  // A call ends only by its own entry or exit, never at once, and it enters or leaves
  // its own lock alone, exactly once.
  lemma CallEndsByItsOwnStep(n: nat, r: Run, j: nat, k: nat, t: Thread)
    requires IsRun(n, r) && j < |r.actions| && Returns(r, j, k, t)
    requires r.actions[j].Call? && r.actions[j].thread == t && 0 <= r.actions[j].index < n
    ensures k > j + 1
    ensures r.actions[k - 1] == if r.actions[j].lock then Enter(t) else Leave(t)
    ensures forall i :: Balance(r, k, t, i) == Balance(r, j, t, i) +
              if i != r.actions[j].index then 0 else if r.actions[j].lock then 1 else -1
  {
    hide Step;
    DuringCall(n, r, j, j + 1, t);
    DuringCall(n, r, j, k - 1, t);
    CallStepwise(n, r.states[k - 1], r.actions[k - 1], r.states[k], t);
  }

  lemma StepKeepsSlots(n: nat, s: State, a: Action, s': State, i: int)
    requires Step(n, s, a, s') && i in s.slots
    ensures i in s'.slots && s'.slots[i] == s.slots[i]
  {
  }

  // Once set, a lock pointer never changes again.
  lemma {:induction false} SlotsStay(n: nat, r: Run, j: nat, k: nat, i: int)
    requires IsRun(n, r) && j <= k < |r.states|
    requires i in r.states[j].slots
    ensures i in r.states[k].slots && r.states[k].slots[i] == r.states[j].slots[i]
  {
    if j < k {
      SlotsStay(n, r, j, k - 1, i);
      assert Step(n, r.states[k - 1], r.actions[k - 1], r.states[k]);
      StepKeepsSlots(n, r.states[k - 1], r.actions[k - 1], r.states[k], i);
    }
  }

  function Pointer(s: State, i: int): Option<Section> {
    if i in s.slots then Some(s.slots[i]) else None
  }

  // In a whole run at most one step changes a lock pointer, and it is the
  // compare-and-swap of a thread that made the section for this index.
  lemma ChangesOnce(n: nat, r: Run, j: nat, k: nat, i: int)
    requires IsRun(n, r) && j < |r.actions| && k < |r.actions|
    requires Pointer(r.states[j], i) != Pointer(r.states[j + 1], i)
    requires Pointer(r.states[k], i) != Pointer(r.states[k + 1], i)
    ensures j == k && r.actions[k].CompareAndSwap?
    ensures Pointer(r.states[k], i) == None && i in r.states[k + 1].slots
    ensures PcOf(r.states[k], r.actions[k].thread) == Installing(i, r.states[k + 1].slots[i], true)
  {
    var lo, hi := if j <= k then j else k, if j <= k then k else j;
    assert Step(n, r.states[lo], r.actions[lo], r.states[lo + 1]);
    assert Step(n, r.states[hi], r.actions[hi], r.states[hi + 1]);
    assert i in r.states[lo + 1].slots;
    if lo < hi {
      SlotsStay(n, r, lo + 1, hi, i);
      SlotsStay(n, r, lo + 1, hi + 1, i);
    }
    RunInv(n, r, k);
    assert ThreadOk(r.states[k], r.actions[k].thread);
  }

  // The section a thread enters or leaves in step k.
  function Used(r: Run, k: nat): Option<Section>
    requires k < |r.states| && k < |r.actions|
  {
    var t := r.actions[k].thread;
    if PcOf(r.states[k], t).Ready? then Pointer(r.states[k], PcOf(r.states[k], t).index) else None
  }

  ghost predicate EntersOrLeaves(r: Run, k: nat, i: int)
    requires k < |r.states| && k < |r.actions|
  {
    && (r.actions[k].Enter? || r.actions[k].Leave?)
    && !PcOf(r.states[k], r.actions[k].thread).Idle? && PcOf(r.states[k], r.actions[k].thread).index == i
  }

  // All threads use one and the same section for an index, whenever they come, and it
  // is allocated both times: made once and never freed.
  lemma OneSectionForAll(n: nat, r: Run, j: nat, k: nat, i: int)
    requires IsRun(n, r) && j <= k < |r.actions|
    requires EntersOrLeaves(r, j, i) && EntersOrLeaves(r, k, i)
    ensures Used(r, j) == Used(r, k) && Used(r, j).Some?
    ensures Used(r, j).value in r.states[j].heap && Used(r, j).value in r.states[k].heap
  {
    RunInv(n, r, j);
    RunInv(n, r, k);
    assert Step(n, r.states[j], r.actions[j], r.states[j + 1]);
    assert Step(n, r.states[k], r.actions[k], r.states[k + 1]);
    SlotsStay(n, r, j, k, i);
  }

  function Installed(s: State): set<Section> {
    set i | i in s.slots :: s.slots[i]
  }

  // A section leaves the heap only when the thread that made it, having lost the
  // compare-and-swap, frees it; it is then unowned and no lock pointer holds it.
  lemma LoserFreesItsOwn(n: nat, r: Run, k: nat, c: Section)
    requires IsRun(n, r) && k < |r.actions|
    requires c in r.states[k].heap && c !in r.states[k + 1].heap
    ensures r.actions[k] == FreeOwn(r.states[k].heap[c].maker)
    ensures r.states[k].heap[c].owner == Free && r.states[k].heap[c].index in r.states[k].slots
    ensures c !in Installed(r.states[k])
  {
    var s, t := r.states[k], r.actions[k].thread;
    assert Step(n, s, r.actions[k], r.states[k + 1]);
    RunInv(n, r, k);
    assert ThreadOk(s, t);
    forall i | i in s.slots ensures s.slots[i] != c {
      assert IndexOk(s, i);
    }
  }

  // At most one section per index stays allocated: whenever no thread is between its
  // allocation and its compare-and-swap or free, the allocated sections are exactly
  // the installed ones, and different indexes have different sections.
  lemma NothingLeaks(n: nat, r: Run, k: nat)
    requires IsRun(n, r) && k < |r.states|
    requires forall t :: !PcOf(r.states[k], t).Installing? && !PcOf(r.states[k], t).Lost?
    ensures r.states[k].heap.Keys == Installed(r.states[k])
    ensures forall i, j | i in r.states[k].slots && j in r.states[k].slots && i != j ::
              r.states[k].slots[i] != r.states[k].slots[j]
  {
    var s := r.states[k];
    RunInv(n, r, k);
    forall c ensures c in s.heap.Keys <==> c in Installed(s) {
      if c in Installed(s) {
        var i :| i in s.slots && s.slots[i] == c;
        assert IndexOk(s, i);
      }
      if c in s.heap {
        assert SectionOk(s, c);
        assert s.heap[c].index in s.slots;
      }
    }
    forall i, j | i in s.slots && j in s.slots && i != j ensures s.slots[i] != s.slots[j] {
      assert IndexOk(s, i) && IndexOk(s, j);
    }
  }

  ghost predicate Enabled(n: nat, s: State, t: Thread) {
    exists a: Action, s': State :: a.thread == t && Step(n, s, a, s')
  }

  // No lost wake-ups and no use of a freed section: a thread inside a call can always
  // take its next step unless it waits to enter a lock that another thread is inside.
  lemma OnlyWaitsForAHolder(n: nat, r: Run, k: nat, t: Thread)
    requires IsRun(n, r) && k < |r.states|
    requires !PcOf(r.states[k], t).Idle? && !Enabled(n, r.states[k], t)
    ensures PcOf(r.states[k], t).Ready? && PcOf(r.states[k], t).lock
    ensures exists u :: u != t && Balance(r, k, u, PcOf(r.states[k], t).index) > 0
  {
    var s := r.states[k];
    RunInv(n, r, k);
    var i := PcOf(s, t).index;
    assert ThreadOk(s, t) && IndexOk(s, i) && HeldOk(s, t, i);
    TakesAStep(n, s, t);
    var u := s.heap[s.slots[i]].owner.thread;
    HeldIsBalance(n, r, k, u, i);
  }

  lemma TakesAStep(n: nat, s: State, t: Thread)
    requires !PcOf(s, t).Idle? && !Enabled(n, s, t)
    requires ThreadOk(s, t)
    requires IndexOk(s, PcOf(s, t).index) && HeldOk(s, t, PcOf(s, t).index)
    ensures PcOf(s, t).Ready? && PcOf(s, t).lock
    ensures s.heap[s.slots[PcOf(s, t).index]].owner.Owned?
    ensures s.heap[s.slots[PcOf(s, t).index]].owner.thread != t
  {
    var pc := PcOf(s, t);
    match pc
    case SawNull(i, lock) =>
      var c := Top(s.heap.Keys);
      assert Step(n, s, Malloc(t, c), s.(pc := s.pc[t := Installing(i, c, lock)],
                                         heap := s.heap[c := Block(Free, t, i)]));
    case Installing(i, c, lock) =>
      assert Step(n, s, CompareAndSwap(t), if i in s.slots then s.(pc := s.pc[t := Lost(i, c, lock)])
                                           else s.(slots := s.slots[i := c], pc := s.pc[t := Ready(i, lock)]));
    case Lost(i, c, lock) =>
      assert Step(n, s, FreeOwn(t), s.(heap := s.heap - {c}, pc := s.pc[t := Ready(i, lock)]));
    case Ready(i, lock) =>
      var b := s.heap[s.slots[i]];
      if !lock {
        assert Step(n, s, Leave(t), s.(heap := s.heap[s.slots[i] := b.(owner := Left(b.owner))],
                                       held := s.held[(t, i) := Held(s, t, i) - 1], pc := s.pc[t := Idle]));
      } else if b.owner.Free? || b.owner.thread == t {
        assert Step(n, s, Enter(t), s.(heap := s.heap[s.slots[i] := b.(owner := Entered(b.owner, t))],
                                       held := s.held[(t, i) := Held(s, t, i) + 1], pc := s.pc[t := Idle]));
      }
    case Idle =>
  }

  // An address above all those in use.
  ghost function Top(used: set<Section>): (top: Section)
    ensures forall c | c in used :: c < top
  {
    if used == {} then 0
    else
      var c :| c in used;
      var rest := Top(used - {c});
      assert forall d | d in used :: d == c || d in used - {c};
      if c < rest then rest else c + 1
  }
}
