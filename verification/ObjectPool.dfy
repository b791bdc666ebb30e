/** The pool of base/base/BorrowedObjectPool.h: a class whose methods are the critical sections of the source,
    and the protocol that any number of client threads run over it.  Objects are numbered in the order in which
    the factory makes them. */
module ObjectPool {
  import opened Arith
  import opened Wrappers

  /** The fields of the pool. */
  datatype Pool = Pool(maxSize: nat, allocatedSize: nat, borrowedSize: nat, idle: seq<nat>) {
    predicate CanAllocate() { maxSize == 0 || allocatedSize < maxSize }

    /** borrowFromObjects takes the object that was returned last. */
    function Taken(): Pool
      requires idle != []
    { this.(idle := idle[..|idle| - 1], borrowedSize := borrowedSize + 1) }

    function Top(): nat
      requires idle != []
    { idle[|idle| - 1] }

    /** allocateObjectForBorrowing. */
    function Grown(): Pool { this.(allocatedSize := allocatedSize + 1, borrowedSize := borrowedSize + 1) }

    /** The critical section of returnObject. */
    function Put(o: nat): Pool
      requires borrowedSize > 0
    { this.(idle := idle + [o], borrowedSize := borrowedSize - 1) }

    /** borrowObject up to the wait.  The counters are incremented before the factory is called. */
    function Enter(factoryThrows: bool): (Pool, Attempt) {
      if idle != [] then (Taken(), Got(Top()))
      else if CanAllocate() then (Grown(), if factoryThrows then Threw else Got(allocatedSize))
      else (this, MustWait)
    }

    /** borrowObject after a wake-up: the predicate of the wait again. */
    function Retry(): (Pool, Attempt) {
      if idle != [] then (Taken(), Got(Top())) else (this, MustWait)
    }
  }

  /** How a critical section of borrowObject ends; the factory may throw. */
  datatype Attempt = Got(o: nat) | MustWait | Threw

  class BorrowedObjectPool {
    const maxSize: nat
    var allocatedSize: nat
    var borrowedSize: nat
    var objects: seq<nat>

    ghost function View(): Pool
      reads this
    {
      Pool(maxSize, allocatedSize, borrowedSize, objects)
    }

    constructor (maxSize: nat)
      ensures View() == Pool(maxSize, 0, 0, [])
    {
      this.maxSize := maxSize;
      allocatedSize, borrowedSize, objects := 0, 0, [];
    }

    method BorrowFromObjects() returns (o: nat)
      requires objects != []
      modifies this
      ensures View() == old(View()).Taken() && o == old(View()).Top()
    {
      o := objects[|objects| - 1];
      objects := objects[..|objects| - 1];
      borrowedSize := borrowedSize + 1;
    }

    method Enter(factoryThrows: bool) returns (r: Attempt)
      modifies this
      ensures (View(), r) == old(View()).Enter(factoryThrows)
    {
      if objects != [] {
        var o := BorrowFromObjects();
        return Got(o);
      }
      var hasUnlimitedSize := maxSize == 0;
      if hasUnlimitedSize || allocatedSize < maxSize {
        allocatedSize := allocatedSize + 1;
        borrowedSize := borrowedSize + 1;
        if factoryThrows {
          return Threw;
        }
        return Got(allocatedSize - 1);
      }
      return MustWait;
    }

    method Retry() returns (r: Attempt)
      modifies this
      ensures (View(), r) == old(View()).Retry()
    {
      if objects != [] {
        var o := BorrowFromObjects();
        return Got(o);
      }
      return MustWait;
    }

    method ReturnObject(o: nat)
      requires borrowedSize > 0
      modifies this
      ensures View() == old(View()).Put(o)
    {
      objects := objects + [o];
      borrowedSize := borrowedSize - 1;
    }
  }

  // --- the protocol -----------------------------------------------------------------------------------------

  /** Where a client is: outside, asleep on the condition variable (with a timeout or not), woken but not yet
      holding the mutex again, or between the critical section of returnObject and its notify_one. */
  datatype Control = Running | Sleeping(timed: bool) | Awake(timed: bool, expired: bool) | Notifying

  datatype Thread = Thread(control: Control, held: set<nat>)

  /** `lost` holds the numbers of the objects that were counted and never made, because the factory threw. */
  datatype State = State(pool: Pool, threads: map<nat, Thread>, lost: set<nat>)

  datatype Action =
    | Borrow(timed: bool)
    | FactoryThrows
    | Return(o: nat)
    | NotifyOne(woken: nat)
    | NotifyNone
    | Spurious
    | Timeout
    | Resume

  function Move(s: State, t: nat, pool: Pool, thread: Thread): State {
    State(pool, s.threads[t := thread], s.lost)
  }

  /** A call of the factory that throws. */
  function Lose(s: State): State {
    State(s.pool.Enter(true).0, s.threads, s.lost + {s.pool.allocatedSize})
  }

  ghost function Sleepers(s: State): set<nat> {
    set t | t in s.threads && s.threads[t].control.Sleeping?
  }

  /** Threads that still owe a look at the idle objects, their own or a sleeper's. */
  ghost function InFlight(s: State): set<nat> {
    set t | t in s.threads && (s.threads[t].control.Notifying? || s.threads[t].control.Awake?)
  }

  /** Thread t can take the action: a client returns only what it borrowed, and notify_one wakes a sleeper
      if there is one. */
  ghost predicate Enabled(s: State, t: nat, a: Action) {
    t in s.threads &&
    var c := s.threads[t].control;
    match a
    case Borrow(_) => c.Running?
    case FactoryThrows => c.Running? && s.pool.Enter(true).1.Threw?
    case Return(o) => c.Running? && o in s.threads[t].held && s.pool.borrowedSize > 0
    case NotifyOne(woken) => c.Notifying? && woken in Sleepers(s)
    case NotifyNone => c.Notifying? && Sleepers(s) == {}
    case Spurious => c.Sleeping?
    case Timeout => c.Sleeping? && c.timed
    case Resume => c.Awake?
  }

  function WithObject(thread: Thread, o: nat): Thread {
    Thread(Running, thread.held + {o})
  }

  ghost function Step(s: State, t: nat, a: Action): State
    requires Enabled(s, t, a)
  {
    var thread, pool := s.threads[t], s.pool;
    var c := thread.control;
    match a
    case Borrow(timed) =>
      var (after, r) := pool.Enter(false);
      Move(s, t, after, if r.Got? then WithObject(thread, r.o) else thread.(control := Sleeping(timed)))
    case FactoryThrows => Lose(s)
    case Return(o) => Move(s, t, pool.Put(o), Thread(Notifying, thread.held - {o}))
    case NotifyOne(woken) =>
      var after := Move(s, t, pool, thread.(control := Running));
      Move(after, woken, pool, s.threads[woken].(control := Awake(s.threads[woken].control.timed, false)))
    case NotifyNone => Move(s, t, pool, thread.(control := Running))
    case Spurious => Move(s, t, pool, thread.(control := Awake(c.timed, false)))
    case Timeout => Move(s, t, pool, thread.(control := Awake(c.timed, true)))
    case Resume =>
      var (after, r) := pool.Retry();
      Move(s, t, after, if r.Got? then WithObject(thread, r.o)
                        else thread.(control := if c.expired then Running else Sleeping(c.timed)))
  }

  ghost predicate Init(s: State) {
    s.pool.allocatedSize == 0 && s.pool.borrowedSize == 0 && s.pool.idle == [] && s.lost == {}
    && forall t :: t in s.threads ==> s.threads[t] == Thread(Running, {})
  }

  // --- the invariant ----------------------------------------------------------------------------------------

  ghost function HeldBy(threads: map<nat, Thread>): set<nat> {
    set t, o | t in threads && o in threads[t].held :: o
  }

  ghost function Members(q: seq<nat>): set<nat> {
    set i | 0 <= i < |q| :: q[i]
  }

  ghost predicate Exclusive(threads: map<nat, Thread>) {
    forall t, u :: t in threads && u in threads && t != u ==> threads[t].held !! threads[u].held
  }

  /** Every allocated object is in exactly one place: idle, held by one client, or lost. */
  ghost predicate Partition(s: State) {
    && Distinct(s.pool.idle)
    && Exclusive(s.threads)
    && Members(s.pool.idle) !! HeldBy(s.threads)
    && s.lost !! Members(s.pool.idle) + HeldBy(s.threads)
    && Members(s.pool.idle) + HeldBy(s.threads) + s.lost == Below(s.pool.allocatedSize)
    && s.pool.borrowedSize == |HeldBy(s.threads)| + |s.lost|
  }

  ghost predicate Bounded(s: State) {
    && (s.pool.maxSize > 0 ==> s.pool.allocatedSize <= s.pool.maxSize)
    && (forall t :: t in s.threads && (s.threads[t].control.Sleeping? || s.threads[t].control.Awake?) ==>
          s.pool.maxSize > 0 && s.pool.allocatedSize == s.pool.maxSize)
  }

  /** While some thread sleeps, idle objects never exceed the notifications and wake-ups in flight. */
  ghost predicate NoLostWakeUp(s: State) {
    Sleepers(s) != {} ==> |s.pool.idle| <= |InFlight(s)|
  }

  ghost predicate Invariant(s: State) {
    Partition(s) && Bounded(s) && NoLostWakeUp(s)
  }

  // --- preservation -----------------------------------------------------------------------------------------

  lemma HeldMember(threads: map<nat, Thread>, t: nat, o: nat)
    requires t in threads && o in threads[t].held
    ensures o in HeldBy(threads)
  {
  }

  /** Changing what one client holds changes the union by just that. */
  lemma HeldAfter(threads: map<nat, Thread>, t: nat, thread: Thread)
    requires t in threads && Exclusive(threads)
    ensures HeldBy(threads[t := thread]) == (HeldBy(threads) - threads[t].held) + thread.held
  {
    var after := threads[t := thread];
    forall o | o in (HeldBy(threads) - threads[t].held) + thread.held
      ensures o in HeldBy(after)
    {
      if o in thread.held {
        assert after[t] == thread;
      } else {
        var u :| u in threads && o in threads[u].held;
        assert after[u] == threads[u];
      }
    }
    forall o | o in HeldBy(after)
      ensures o in (HeldBy(threads) - threads[t].held) + thread.held
    {
      var u :| u in after && o in after[u].held;
      if u != t {
        assert o in threads[u].held;
      }
    }
  }

  lemma ExclusiveAfter(threads: map<nat, Thread>, t: nat, thread: Thread)
    requires t in threads && Exclusive(threads)
    requires thread.held !! (HeldBy(threads) - threads[t].held)
    ensures Exclusive(threads[t := thread])
  {
    forall u | u in threads && u != t
      ensures thread.held !! threads[u].held
    {
      assert threads[u].held <= HeldBy(threads);
      assert threads[u].held !! threads[t].held;
    }
  }

  lemma PartitionSame(s: State, t: nat, control: Control)
    requires Partition(s) && t in s.threads
    ensures Partition(Move(s, t, s.pool, s.threads[t].(control := control)))
  {
    var thread := s.threads[t].(control := control);
    HeldAfter(s.threads, t, thread);
    ExclusiveAfter(s.threads, t, thread);
    assert s.threads[t].held <= HeldBy(s.threads);
    assert (HeldBy(s.threads) - s.threads[t].held) + thread.held == HeldBy(s.threads);
  }

  /** One more object for one client. */
  lemma HeldMore(threads: map<nat, Thread>, t: nat, thread: Thread, o: nat)
    requires t in threads && Exclusive(threads) && o !in HeldBy(threads) && thread.held == threads[t].held + {o}
    ensures HeldBy(threads[t := thread]) == HeldBy(threads) + {o} && Exclusive(threads[t := thread])
  {
    assert threads[t].held <= HeldBy(threads);
    ExclusiveAfter(threads, t, thread);
    HeldAfter(threads, t, thread);
  }

  /** One object less. */
  lemma HeldLess(threads: map<nat, Thread>, t: nat, thread: Thread, o: nat)
    requires t in threads && Exclusive(threads) && o in threads[t].held && thread.held == threads[t].held - {o}
    ensures HeldBy(threads[t := thread]) == HeldBy(threads) - {o} && o in HeldBy(threads)
    ensures Exclusive(threads[t := thread])
  {
    HeldMember(threads, t, o);
    assert threads[t].held <= HeldBy(threads);
    ExclusiveAfter(threads, t, thread);
    HeldAfter(threads, t, thread);
  }

  /** Moving an object from the idle ones to the held ones. */
  lemma MoveAcross(idle: set<nat>, held: set<nat>, o: nat)
    requires o !in idle && (idle + {o}) !! held
    ensures idle !! (held + {o}) && idle + (held + {o}) == idle + {o} + held && |held + {o}| == |held| + 1
  {
  }

  lemma PartitionTake(s: State, t: nat)
    requires Partition(s) && t in s.threads && s.pool.idle != []
    ensures Partition(Move(s, t, s.pool.Taken(), WithObject(s.threads[t], s.pool.Top())))
  {
    hide HeldBy, Exclusive, Members, Below;
    MembersLast(s.pool.idle);
    HeldMore(s.threads, t, WithObject(s.threads[t], s.pool.Top()), s.pool.Top());
    MoveAcross(Members(s.pool.Taken().idle), HeldBy(s.threads), s.pool.Top());
  }

  lemma MembersLast(q: seq<nat>)
    requires q != [] && Distinct(q)
    ensures Members(q) == Members(q[..|q| - 1]) + {q[|q| - 1]} && q[|q| - 1] !in Members(q[..|q| - 1])
  {
    var last := |q| - 1;
    forall o | o in Members(q)
      ensures o in Members(q[..last]) + {q[last]}
    {
      var i :| 0 <= i < |q| && q[i] == o;
      if i < last {
        assert q[..last][i] == o;
      }
    }
  }

  lemma ObjectsNext(n: nat)
    ensures Below(n + 1) == Below(n) + {n} && n !in Below(n)
  {
  }

  lemma NewObject(idle: set<nat>, held: set<nat>, lost: set<nat>, all: set<nat>, o: nat)
    requires idle !! held && lost !! idle + held && idle + held + lost == all && o !in all
    ensures o !in held && idle !! (held + {o}) && lost !! idle + (held + {o}) && |held + {o}| == |held| + 1
    ensures (lost + {o}) !! idle + held && |lost + {o}| == |lost| + 1
    ensures idle + (held + {o}) + lost == all + {o} == idle + held + (lost + {o})
  {
  }

  lemma PartitionGrow(s: State, t: nat)
    requires Partition(s) && t in s.threads
    ensures Partition(Move(s, t, s.pool.Grown(), WithObject(s.threads[t], s.pool.allocatedSize)))
  {
    var o := s.pool.allocatedSize;
    hide HeldBy, Exclusive, Members;
    ObjectsNext(o);
    hide Below;
    NewObject(Members(s.pool.idle), HeldBy(s.threads), s.lost, Below(o), o);
    HeldMore(s.threads, t, WithObject(s.threads[t], o), o);
  }

  lemma PartitionLose(s: State)
    requires Partition(s) && s.pool.Enter(true).1.Threw?
    ensures Partition(Lose(s))
  {
    var o := s.pool.allocatedSize;
    hide HeldBy, Exclusive, Members;
    ObjectsNext(o);
    hide Below;
    NewObject(Members(s.pool.idle), HeldBy(s.threads), s.lost, Below(o), o);
  }

  lemma PartitionPut(s: State, t: nat, o: nat)
    requires Partition(s) && t in s.threads && o in s.threads[t].held && s.pool.borrowedSize > 0
    ensures Partition(Move(s, t, s.pool.Put(o), Thread(Notifying, s.threads[t].held - {o})))
  {
    hide HeldBy, Exclusive, Members, Below;
    HeldLess(s.threads, t, Thread(Notifying, s.threads[t].held - {o}), o);
    MembersAppend(s.pool.idle, o);
  }

  lemma MembersAppend(q: seq<nat>, o: nat)
    requires Distinct(q) && o !in Members(q)
    ensures Members(q + [o]) == Members(q) + {o} && Distinct(q + [o])
  {
    var r := q + [o];
    assert r[|q|] == o;
    forall i | 0 <= i < |q|
      ensures q[i] in Members(r) && q[i] in Members(q)
    {
      assert r[i] == q[i];
    }
    assert forall x :: x in Members(r) ==> x in Members(q) + {o};
  }

  lemma BorrowPartition(s: State, t: nat, timed: bool)
    requires Partition(s) && Enabled(s, t, Borrow(timed))
    ensures Partition(Step(s, t, Borrow(timed)))
  {
    hide Partition, Sleepers;
    if s.pool.idle != [] {
      PartitionTake(s, t);
    } else if s.pool.CanAllocate() {
      PartitionGrow(s, t);
    } else {
      PartitionSame(s, t, Sleeping(timed));
    }
  }

  lemma ResumePartition(s: State, t: nat)
    requires Partition(s) && Enabled(s, t, Resume)
    ensures Partition(Step(s, t, Resume))
  {
    hide Partition, Sleepers;
    var c := s.threads[t].control;
    if s.pool.idle != [] {
      PartitionTake(s, t);
    } else {
      PartitionSame(s, t, if c.expired then Running else Sleeping(c.timed));
    }
  }

  /** Every step keeps every object in one place. */
  lemma StepPartition(s: State, t: nat, a: Action)
    requires Partition(s) && Enabled(s, t, a)
    ensures Partition(Step(s, t, a))
  {
    hide Partition;
    var pool, c := s.pool, s.threads[t].control;
    match a {
      case Borrow(timed) =>
        BorrowPartition(s, t, timed);
      case FactoryThrows =>
        PartitionLose(s);
      case Return(o) =>
        PartitionPut(s, t, o);
      case NotifyOne(woken) =>
        PartitionSame(s, t, Running);
        var after := Move(s, t, pool, s.threads[t].(control := Running));
        PartitionSame(after, woken, Awake(s.threads[woken].control.timed, false));
      case NotifyNone =>
        PartitionSame(s, t, Running);
      case Spurious =>
        PartitionSame(s, t, Awake(c.timed, false));
      case Timeout =>
        PartitionSame(s, t, Awake(c.timed, true));
      case Resume =>
        ResumePartition(s, t);
    }
  }

  lemma StepBounded(s: State, t: nat, a: Action)
    requires Bounded(s) && Enabled(s, t, a)
    ensures Bounded(Step(s, t, a))
  {
  }

  /** One thread enters or leaves the set in flight. */
  lemma InFlightAfter(s: State, t: nat, pool: Pool, thread: Thread)
    requires t in s.threads
    ensures var after := InFlight(Move(s, t, pool, thread));
            after == if thread.control.Notifying? || thread.control.Awake? then InFlight(s) + {t} else InFlight(s) - {t}
    ensures var after := Sleepers(Move(s, t, pool, thread));
            if thread.control.Sleeping? then after == Sleepers(s) + {t} else after == Sleepers(s) - {t}
  {
  }

  ghost predicate IsInFlight(thread: Thread) { thread.control.Notifying? || thread.control.Awake? }

  /** A move keeps the balance if it adds no more idle objects than threads in flight. */
  lemma MoveNoLostWakeUp(s: State, t: nat, pool: Pool, thread: Thread)
    requires NoLostWakeUp(s) && t in s.threads
    requires pool.idle == []
          || (!thread.control.Sleeping?
              && |pool.idle| + (if IsInFlight(s.threads[t]) then 1 else 0)
                 <= |s.pool.idle| + (if IsInFlight(thread) then 1 else 0))
    ensures NoLostWakeUp(Move(s, t, pool, thread))
  {
    InFlightAfter(s, t, pool, thread);
    hide InFlight, Sleepers;
    InFlightMember(s, t);
  }

  lemma InFlightMember(s: State, t: nat)
    requires t in s.threads
    ensures t in InFlight(s) <==> IsInFlight(s.threads[t])
  {
  }

  lemma NotifyOneWakes(s: State, t: nat, woken: nat)
    requires NoLostWakeUp(s) && Enabled(s, t, NotifyOne(woken))
    ensures NoLostWakeUp(Step(s, t, NotifyOne(woken)))
  {
    var pool, thread := s.pool, s.threads[t];
    var after := Move(s, t, pool, thread.(control := Running));
    InFlightAfter(s, t, pool, thread.(control := Running));
    InFlightAfter(after, woken, pool, s.threads[woken].(control := Awake(s.threads[woken].control.timed, false)));
    assert t in InFlight(s) && woken !in InFlight(s) - {t};
  }

  /** Every step keeps the wake-ups. */
  lemma StepNoLostWakeUp(s: State, t: nat, a: Action)
    requires NoLostWakeUp(s) && Enabled(s, t, a)
    ensures NoLostWakeUp(Step(s, t, a))
  {
    match a {
      case NotifyOne(woken) =>
        NotifyOneWakes(s, t, woken);
      case FactoryThrows =>
        assert Step(s, t, a).pool.idle == [];
      case NotifyNone =>
        InFlightAfter(s, t, s.pool, s.threads[t].(control := Running));
      case _ =>
        hide NoLostWakeUp;
        MoveNoLostWakeUp(s, t, Step(s, t, a).pool, Step(s, t, a).threads[t]);
    }
  }

  // --- runs -------------------------------------------------------------------------------------------------

  /** A run: each state follows from the one before by one enabled action of one thread. */
  ghost predicate Run(states: seq<State>, moves: seq<(nat, Action)>) {
    |states| == |moves| + 1 && Init(states[0])
    && forall i :: 0 <= i < |moves| ==>
         Enabled(states[i], moves[i].0, moves[i].1) && states[i + 1] == Step(states[i], moves[i].0, moves[i].1)
  }

  lemma InitInvariant(s: State)
    requires Init(s)
    ensures Invariant(s)
  {
    assert HeldBy(s.threads) == {};
    assert Members(s.pool.idle) == {};
  }

  lemma {:induction false} RunInvariant(states: seq<State>, moves: seq<(nat, Action)>, i: nat)
    requires Run(states, moves) && i < |states|
    ensures Invariant(states[i])
  {
    hide Partition, Bounded, NoLostWakeUp, Enabled, Step;
    if i == 0 {
      InitInvariant(states[0]);
    } else {
      RunInvariant(states, moves, i - 1);
      StepPartition(states[i - 1], moves[i - 1].0, moves[i - 1].1);
      StepBounded(states[i - 1], moves[i - 1].0, moves[i - 1].1);
      StepNoLostWakeUp(states[i - 1], moves[i - 1].0, moves[i - 1].1);
    }
  }

  lemma {:induction false} DistinctSize(q: seq<nat>)
    requires Distinct(q)
    ensures |Members(q)| == |q|
    decreases |q|
  {
    if q == [] {
      assert Members(q) == {};
    } else {
      MembersLast(q);
      DistinctSize(q[..|q| - 1]);
    }
  }

  lemma Conservation(s: State)
    requires Partition(s)
    ensures s.pool.allocatedSize == s.pool.borrowedSize + |s.pool.idle|
    ensures s.pool.borrowedSize == |HeldBy(s.threads)| + |s.lost|
  {
    hide Distinct, Exclusive, Members, HeldBy;
    DistinctSize(s.pool.idle);
    var there := Members(s.pool.idle) + HeldBy(s.threads);
    assert |there| == |Members(s.pool.idle)| + |HeldBy(s.threads)|;
    assert |there + s.lost| == |there| + |s.lost|;
  }

  /** What a caller of the pool can rely on. */
  ghost predicate Safe(s: State) {
    && s.pool.allocatedSize == s.pool.borrowedSize + |s.pool.idle|
    && s.pool.borrowedSize == |HeldBy(s.threads)| + |s.lost|
    && (s.pool.maxSize > 0 ==> s.pool.allocatedSize <= s.pool.maxSize)
    && (forall t, u, o :: t in s.threads && u in s.threads && o in s.threads[t].held && o in s.threads[u].held ==>
          t == u)
    && (forall t, o :: t in s.threads && o in s.threads[t].held ==> o !in s.pool.idle && o !in s.lost)
  }

  lemma OneOwner(s: State, t: nat, o: nat)
    requires Partition(s) && t in s.threads && o in s.threads[t].held
    ensures o !in s.pool.idle && o !in s.lost && s.pool.borrowedSize > 0
  {
    HeldMember(s.threads, t, o);
    assert {o} <= HeldBy(s.threads);
    assert o !in Members(s.pool.idle);
  }

  lemma TwoOwners(s: State, t: nat, u: nat, o: nat)
    requires Partition(s) && t in s.threads && u in s.threads && o in s.threads[t].held && o in s.threads[u].held
    ensures t == u
  {
    hide Distinct, Members, HeldBy, Below;
  }

  lemma InvariantSafe(s: State)
    requires Invariant(s)
    ensures Safe(s)
  {
    hide Partition, NoLostWakeUp, HeldBy;
    Conservation(s);
    forall t, o | t in s.threads && o in s.threads[t].held
      ensures o !in s.pool.idle && o !in s.lost
    {
      OneOwner(s, t, o);
    }
    forall t, u, o | t in s.threads && u in s.threads && o in s.threads[t].held && o in s.threads[u].held
      ensures t == u
    {
      TwoOwners(s, t, u, o);
    }
  }

  /** In every state of every run: what is allocated is borrowed or idle, what counts as borrowed is held or lost,
      the bound holds, no object is held by two clients or both held and idle, and while a thread sleeps every idle
      object has a notification or a woken thread on its way to it. */
  lemma RunSafety(states: seq<State>, moves: seq<(nat, Action)>, i: nat)
    requires Run(states, moves) && i < |states|
    ensures Safe(states[i]) && NoLostWakeUp(states[i])
  {
    hide Partition, Safe, NoLostWakeUp, Run, Bounded;
    RunInvariant(states, moves, i);
    InvariantSafe(states[i]);
  }

  /** A client can always return what it holds. */
  lemma HolderCanReturn(states: seq<State>, moves: seq<(nat, Action)>, i: nat, t: nat, o: nat)
    requires Run(states, moves) && i < |states|
    requires t in states[i].threads && states[i].threads[t].control.Running? && o in states[i].threads[t].held
    ensures Enabled(states[i], t, Return(o))
  {
    hide Run, Partition;
    RunInvariant(states, moves, i);
    OneOwner(states[i], t, o);
  }

  /** If every thread sleeps, the pool is full and nothing is idle: the clients wait for each other, and no
      wake-up was lost. */
  lemma AllAsleep(states: seq<State>, moves: seq<(nat, Action)>, i: nat)
    requires Run(states, moves) && i < |states| && states[i].threads != map[]
    requires forall t :: t in states[i].threads ==> states[i].threads[t].control.Sleeping?
    ensures states[i].pool.idle == [] && states[i].pool.borrowedSize == states[i].pool.maxSize > 0
  {
    hide Run, Partition;
    var s := states[i];
    RunInvariant(states, moves, i);
    var t :| t in s.threads;
    assert t in Sleepers(s);
    assert InFlight(s) == {};
    Conservation(s);
  }

  // --- what a borrower gets ---------------------------------------------------------------------------------

  /** The object returned last is borrowed first, and taking it back undoes the return. */
  lemma LastInFirstOut(pool: Pool, o: nat)
    requires pool.borrowedSize > 0
    ensures pool.Put(o).Enter(false) == pool.Put(o).Retry() == (pool, Got(o))
  {
    assert (pool.idle + [o])[..|pool.idle|] == pool.idle;
  }

  /** A step allocates only when what is borrowed exceeds what was ever allocated. */
  lemma StepPeak(s: State, t: nat, a: Action)
    requires Enabled(s, t, a) && s.pool.allocatedSize == s.pool.borrowedSize + |s.pool.idle|
    ensures Step(s, t, a).pool.allocatedSize == Max(s.pool.allocatedSize, Step(s, t, a).pool.borrowedSize)
  {
    hide Sleepers;
    match a {
      case Borrow(_) =>
      case FactoryThrows =>
      case Resume =>
      case _ =>
    }
  }

  /** In every run, the allocated size is the largest borrowed size so far: the pool never exceeds peak demand. */
  lemma {:induction false} PeakDemand(states: seq<State>, moves: seq<(nat, Action)>, i: nat) returns (peak: nat)
    requires Run(states, moves) && i < |states|
    ensures forall j :: 0 <= j <= i ==> states[j].pool.borrowedSize <= states[i].pool.allocatedSize
    ensures peak <= i && states[peak].pool.borrowedSize == states[i].pool.allocatedSize
  {
    hide Partition, Bounded, NoLostWakeUp, Enabled, Step;
    if i == 0 {
      peak := 0;
    } else {
      peak := PeakDemand(states, moves, i - 1);
      RunInvariant(states, moves, i - 1);
      Conservation(states[i - 1]);
      StepPeak(states[i - 1], moves[i - 1].0, moves[i - 1].1);
      if states[i].pool.allocatedSize != states[i - 1].pool.allocatedSize {
        peak := i;
      }
    }
  }

  /** A borrower goes to sleep exactly if nothing is idle and a bounded pool is full; else it has an object more. */
  lemma BorrowOutcome(s: State, t: nat, timed: bool)
    requires Enabled(s, t, Borrow(timed))
    ensures var before, after := s.threads[t], Step(s, t, Borrow(timed)).threads[t];
            if s.pool.idle == [] && 0 < s.pool.maxSize <= s.pool.allocatedSize
            then after == Thread(Sleeping(timed), before.held)
            else
              var o := if s.pool.idle == [] then s.pool.allocatedSize else s.pool.idle[|s.pool.idle| - 1];
              after == Thread(Running, before.held + {o})
  {
  }

  /** The factory can throw whenever it is called: nothing is idle and the pool is not full. */
  lemma FactoryMayThrow(s: State, t: nat)
    requires t in s.threads && s.threads[t].control.Running?
    ensures Enabled(s, t, FactoryThrows) <==> s.pool.idle == [] && !(0 < s.pool.maxSize <= s.pool.allocatedSize)
  {
  }

  /** No thread is stuck: outside it can borrow, with an object it can return it, with a notification to give it can
      give it, woken it can go on, and asleep it can wake up by itself. */
  lemma CanMove(states: seq<State>, moves: seq<(nat, Action)>, i: nat, t: nat)
    requires Run(states, moves) && i < |states| && t in states[i].threads
    ensures match states[i].threads[t].control
            case Running => Enabled(states[i], t, Borrow(false)) && Enabled(states[i], t, Borrow(true))
            case Notifying => Enabled(states[i], t, NotifyNone) || exists u :: Enabled(states[i], t, NotifyOne(u))
            case Awake(_, _) => Enabled(states[i], t, Resume)
            case Sleeping(timed) => Enabled(states[i], t, Spurious) && (timed ==> Enabled(states[i], t, Timeout))
  {
    var s := states[i];
    if s.threads[t].control.Notifying? && Sleepers(s) != {} {
      var u :| u in Sleepers(s);
      assert Enabled(s, t, NotifyOne(u));
    }
  }

  /** Only a timed wait expires. */
  ghost predicate ExpiredIsTimed(s: State) {
    forall t :: t in s.threads && s.threads[t].control.Awake? && s.threads[t].control.expired ==>
      s.threads[t].control.timed
  }

  lemma {:induction false} RunExpired(states: seq<State>, moves: seq<(nat, Action)>, i: nat)
    requires Run(states, moves) && i < |states|
    ensures ExpiredIsTimed(states[i])
  {
    if i > 0 {
      RunExpired(states, moves, i - 1);
      StepExpired(states[i - 1], moves[i - 1].0, moves[i - 1].1);
    }
  }

  lemma StepExpired(s: State, t: nat, a: Action)
    requires ExpiredIsTimed(s) && Enabled(s, t, a)
    ensures ExpiredIsTimed(Step(s, t, a))
  {
  }

  /** A wait ends with the idle object that was returned last; only a timed one can end with nothing, and then
      nothing is idle. */
  lemma WaitEnds(states: seq<State>, moves: seq<(nat, Action)>, i: nat)
    requires Run(states, moves) && i < |moves|
    requires var before, after := states[i].threads[moves[i].0].control, states[i + 1].threads[moves[i].0].control;
             (before.Sleeping? || before.Awake?) && !(after.Sleeping? || after.Awake?)
    ensures var t, idle := moves[i].0, states[i].pool.idle;
            var before, after := states[i].threads[t], states[i + 1].threads[t];
            if idle != [] then after == Thread(Running, before.held + {idle[|idle| - 1]})
            else after == Thread(Running, before.held) && before.control.timed
  {
    RunExpired(states, moves, i);
    WaitStep(states[i], moves[i].0, moves[i].1);
  }

  lemma WaitStep(s: State, t: nat, a: Action)
    requires Enabled(s, t, a) && ExpiredIsTimed(s)
    requires var before, after := s.threads[t].control, Step(s, t, a).threads[t].control;
             (before.Sleeping? || before.Awake?) && !(after.Sleeping? || after.Awake?)
    ensures var idle := s.pool.idle;
            var before, after := s.threads[t], Step(s, t, a).threads[t];
            if idle != [] then after == Thread(Running, before.held + {idle[|idle| - 1]})
            else after == Thread(Running, before.held) && before.control.timed
  {
  }

  // --- a factory that throws --------------------------------------------------------------------------------

  /** How many of the moves are calls of the factory that throw. */
  function Throws(moves: seq<(nat, Action)>): nat {
    if moves == [] then 0
    else Throws(moves[..|moves| - 1]) + if moves[|moves| - 1].1.FactoryThrows? then 1 else 0
  }

  lemma StepLoses(s: State, t: nat, a: Action)
    requires Enabled(s, t, a) && s.pool.allocatedSize !in s.lost
    ensures |Step(s, t, a).lost| == |s.lost| + if a.FactoryThrows? then 1 else 0
    ensures Step(s, t, a).pool.maxSize == s.pool.maxSize
  {
  }

  /** Every call that throws loses one object, and nothing else does. */
  lemma {:induction false} LostCount(states: seq<State>, moves: seq<(nat, Action)>, i: nat)
    requires Run(states, moves) && i < |states|
    ensures |states[i].lost| == Throws(moves[..i]) && states[i].pool.maxSize == states[0].pool.maxSize
  {
    hide Enabled, Step, Partition, Bounded, NoLostWakeUp;
    if i > 0 {
      LostCount(states, moves, i - 1);
      var done := moves[..i];
      assert done[..|done| - 1] == moves[..i - 1] && done[|done| - 1] == moves[i - 1];
      RunInvariant(states, moves, i - 1);
      NotYetLost(states[i - 1]);
      StepLoses(states[i - 1], moves[i - 1].0, moves[i - 1].1);
    }
  }

  lemma NotYetLost(s: State)
    requires Partition(s)
    ensures s.pool.allocatedSize !in s.lost
  {
    assert s.pool.allocatedSize !in Below(s.pool.allocatedSize);
  }

  /** The objects that clients hold, the idle ones and the calls that threw add up to what was allocated. */
  lemma ThrowsCostCapacity(states: seq<State>, moves: seq<(nat, Action)>, i: nat)
    requires Run(states, moves) && i < |states|
    ensures var s := states[i];
            |HeldBy(s.threads)| + |s.pool.idle| + Throws(moves[..i]) == s.pool.allocatedSize
  {
    hide Run, Partition, Throws, HeldBy;
    RunInvariant(states, moves, i);
    Conservation(states[i]);
    LostCount(states, moves, i);
  }

  /** borrowedObjectsSize is the number of objects that clients hold if and only if the factory never threw. */
  lemma BorrowedSizeIff(states: seq<State>, moves: seq<(nat, Action)>, i: nat)
    requires Run(states, moves) && i < |states|
    ensures states[i].pool.borrowedSize == |HeldBy(states[i].threads)|
       <==> forall k :: 0 <= k < i ==> !moves[k].1.FactoryThrows?
  {
    hide Partition, Throws, HeldBy;
    RunInvariant(states, moves, i);
    Conservation(states[i]);
    LostCount(states, moves, i);
    NoThrows(moves[..i]);
    assert forall k :: 0 <= k < i ==> moves[..i][k] == moves[k];
  }

  lemma {:induction false} NoThrows(moves: seq<(nat, Action)>)
    ensures Throws(moves) == 0 <==> forall k :: 0 <= k < |moves| ==> !moves[k].1.FactoryThrows?
  {
    if moves != [] {
      var rest := moves[..|moves| - 1];
      NoThrows(rest);
      assert forall k :: 0 <= k < |rest| ==> rest[k] == moves[k];
    }
  }

  lemma {:induction false} ThrowsGrow(moves: seq<(nat, Action)>, i: nat, j: nat)
    requires i <= j <= |moves|
    ensures Throws(moves[..i]) <= Throws(moves[..j])
  {
    if i < j {
      ThrowsGrow(moves, i, j - 1);
      assert moves[..j][..j - 1] == moves[..j - 1];
    }
  }

  /** Once max_size calls have thrown, a bounded pool has no object left and never gets one again. */
  lemma WornOut(states: seq<State>, moves: seq<(nat, Action)>, i: nat, j: nat, t: nat)
    requires Run(states, moves) && i <= j < |states| && t in states[j].threads
    requires 0 < states[0].pool.maxSize <= Throws(moves[..i])
    ensures states[j].threads[t].held == {} && states[j].pool.idle == [] && !states[j].pool.CanAllocate()
  {
    assert |states| == |moves| + 1;
    hide Run, Partition, Throws;
    var s := states[j];
    RunInvariant(states, moves, j);
    LostCount(states, moves, j);
    ThrowsGrow(moves, i, j);
    ThrowsCostCapacity(states, moves, j);
    assert |HeldBy(s.threads)| == 0;
    if o :| o in s.threads[t].held {
      HeldMember(s.threads, t, o);
    }
  }
}
