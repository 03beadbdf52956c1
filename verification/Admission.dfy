/** When a thread may go on: the exact conditions under which the control-plane locks let it, told by
    what the other threads hold, and eight drives that work at the same time. */
module Admission {
  import opened Sums
  import opened ControlPlane

  // ----------------------------------------------------------------------- who is let through

  /** Its next statement takes mutex_. */
  predicate BeforeMutex(pc: Pc) {
    pc.WantLock? || pc.WriterWoken? || pc.WantUnlock? || pc.WantShared? || pc.ReaderWoken? || pc.WantUnshare?
  }

  ghost predicate NobodyInside(ts: seq<Thread>) { forall j | 0 <= j < |ts| :: InCritical(ts[j]) == 0 }

  ghost predicate NobodyHasDrive(ts: seq<Thread>, d: nat) { forall j | 0 <= j < |ts| :: !HasDrive(ts[j], d) }

  ghost predicate NobodyExclusive(ts: seq<Thread>) { forall j | 0 <= j < |ts| :: OwnsExclusive(ts[j]) == 0 }

  ghost predicate NobodyShared(ts: seq<Thread>) { forall j | 0 <= j < |ts| :: OwnsShared(ts[j]) == 0 }

  ghost predicate NobodyRegistered(ts: seq<Thread>) { forall j | 0 <= j < |ts| :: Registered(ts[j]) == 0 }

  lemma ZeroExactly<T>(f: T -> nat, s: seq<T>)
    ensures Sum(f, s) == 0 <==> forall j | 0 <= j < |s| :: f(s[j]) == 0
  {
    if Sum(f, s) > 0 {
      var i := SumWitness(f, s);
    } else {
      forall j | 0 <= j < |s| ensures f(s[j]) == 0 {
        SumOne(f, s, j);
      }
    }
  }

  /** frameSlots_.acquire returns at once exactly while fewer than eight threads hold a slot. */
  lemma SlotIsGivenExactly(s: State, i: nat)
    requires Reachable(s) && i < |s.threads| && s.threads[i].pc.WantSlot?
    ensures Enabled(s, Run(i)) <==> Sum(OwnsSlot, s.threads) < 8
  {
    ReachableInv(s);
  }

  /** The mutex of a drive is taken at once exactly while no thread has that drive. */
  lemma DriveIsGivenExactly(s: State, i: nat)
    requires Reachable(s) && i < |s.threads| && s.threads[i].pc.WantDrive?
    ensures s.threads[i].op.Drive?
    ensures Enabled(s, Run(i)) <==> NobodyHasDrive(s.threads, s.threads[i].op.position)
  {
    ReachableInv(s);
    var t := s.threads[i];
    assert WellFormed(t, |s.locks.drives|);
    var d := t.op.position;
    ZeroExactly(OwnsDrive(d), s.threads);
    assert forall j | 0 <= j < |s.threads| :: OwnsDrive(d)(s.threads[j]) == 0 <==> !HasDrive(s.threads[j], d);
  }

  /** mutex_ is taken at once exactly while no thread is inside the critical section. */
  lemma MutexIsGivenExactly(s: State, i: nat)
    requires Reachable(s) && i < |s.threads| && BeforeMutex(s.threads[i].pc)
    ensures Enabled(s, Run(i)) <==> NobodyInside(s.threads)
  {
    ReachableInv(s);
    ZeroExactly(InCritical, s.threads);
  }

  /** Nothing else holds up a thread: wherever it is neither idle, asleep nor before one of those three,
      it has a step. */
  lemma OthersGoOn(s: State, i: nat)
    requires Reachable(s) && i < |s.threads|
    requires var pc := s.threads[i].pc;
      !pc.Idle? && !Asleep(pc) && !BeforeMutex(pc) && !pc.WantDrive? && !pc.WantSlot?
    ensures exists m: Move :: (m.Run? || m.RunAndWake?) && m.i == i && Enabled(s, m)
  {
    ReachableInv(s);
    assert WellFormed(s.threads[i], |s.locks.drives|);
    if NotifiesOne(s.threads[i].pc) && exists w :: 0 <= w < |s.threads| && s.threads[w].pc.WriterAsleep? {
      var w :| 0 <= w < |s.threads| && s.threads[w].pc.WriterAsleep?;
      assert Enabled(s, RunAndWake(i, w));
    } else {
      assert Enabled(s, Run(i));
    }
  }

  /** The wait of lock ends exactly when nobody holds the bus, exclusive or shared. */
  lemma WriterEntersExactly(s: State, i: nat)
    requires Reachable(s) && i < |s.threads| && s.threads[i].pc.WriterTest?
    ensures Enabled(s, Run(i))
    ensures Next(s, Run(i)).threads[i].pc ==
      if NobodyExclusive(s.threads) && NobodyShared(s.threads) then Unregistering else WriterAsleep
  {
    ReachableInv(s);
    ZeroExactly(OwnsExclusive, s.threads);
    ZeroExactly(OwnsShared, s.threads);
  }

  /** The wait of lock_shared ends exactly when nobody holds the bus exclusive and no writer waits:
      other readers do not keep a reader out. */
  lemma ReaderEntersExactly(s: State, i: nat)
    requires Reachable(s) && i < |s.threads| && s.threads[i].pc.ReaderTest?
    ensures Enabled(s, Run(i))
    ensures Next(s, Run(i)).threads[i].pc ==
      if NobodyExclusive(s.threads) && NobodyRegistered(s.threads) then Entering else ReaderAsleep
  {
    ReachableInv(s);
    ZeroExactly(OwnsExclusive, s.threads);
    ZeroExactly(Registered, s.threads);
  }

  /** The holds are nested, taken and released: a slot only inside the drive it is for and inside the bus,
      a drive only inside the bus; and a holder of a slot waits for nothing. */
  lemma HoldsAreNested(s: State, i: nat)
    requires Reachable(s) && i < |s.threads|
    ensures var t := s.threads[i];
      && (OwnsSlot(t) == 1 ==> OwnsShared(t) == 1 && Enabled(s, Run(i)))
      && (OwnsSlot(t) == 1 && t.op.Drive? ==> HasDrive(t, t.op.position))
      && (forall d: nat :: HasDrive(t, d) ==> OwnsShared(t) == 1)
  {
    ReachableInv(s);
    assert WellFormed(s.threads[i], |s.locks.drives|);
  }

  // ---------------------------------------------------------------- eight drives at the same time

  lemma {:induction false} RunGoesOn(s: State, ms: seq<Move>, m: Move)
    requires IsRun(s, ms) && Enabled(After(s, ms), m)
    ensures IsRun(s, ms + [m]) && After(s, ms + [m]) == Next(After(s, ms), m)
    decreases |ms|
  {
    if ms == [] {
      assert ms + [m] == [m];
    } else {
      assert (ms + [m])[1..] == ms[1..] + [m];
      RunGoesOn(Next(s, ms[0]), ms[1..], m);
    }
  }

  lemma ReachesNext(s: State, m: Move)
    requires Reachable(s) && Enabled(s, m)
    ensures Reachable(Next(s, m))
  {
    var threads: nat, positions: nat, ms: seq<Move> :|
      IsRun(Start(threads, positions), ms) && After(Start(threads, positions), ms) == s;
    RunGoesOn(Start(threads, positions), ms, m);
  }

  /** Threads below k work in lockDrive of their own drive, thread k is t, and the others are idle. */
  function Crew(n: nat, k: nat, t: Thread): (ts: seq<Thread>)
    ensures |ts| == n
  {
    seq(n, j requires 0 <= j < n =>
      if j < k then Thread(Drive(j), Working) else if j == k then t else Thread(Shared, Idle))
  }

  /** The locks while k threads work: k shared holders, k drives and k slots. */
  function Shares(n: nat, k: nat): Locks {
    Locks(false, Bus(k, 0, false), seq(n, d => d < k), 8 - k)
  }

  function AtWork(n: nat, k: nat): State { State(Crew(n, k, Thread(Shared, Idle)), Shares(n, k)) }

  lemma ThreadGoesOn(n: nat, k: nat, t: Thread, l: Locks, u: Thread, r: Locks)
    requires k < n && CanAct(l, t) && Act(l, t) == (r, u.pc) && u.op == t.op
    requires !NotifiesOne(t.pc) && !t.pc.NotifyReaders?
    requires Reachable(State(Crew(n, k, t), l))
    ensures Reachable(State(Crew(n, k, u), r))
  {
    var s := State(Crew(n, k, t), l);
    assert s.threads[k] == t;
    ReachesNext(s, Run(k));
    assert s.threads[k := u] == Crew(n, k, u);
  }

  lemma OneMoreEnters(n: nat, k: nat)
    requires k < n && Reachable(AtWork(n, k))
    ensures Reachable(State(Crew(n, k, Thread(Drive(k), WantDrive)), Shares(n, k).(bus := Bus(k + 1, 0, false))))
  {
    var s, op, l := AtWork(n, k), Drive(k), Shares(n, k);
    ReachesNext(s, Begin(k, op));
    assert s.threads[k := Thread(op, WantShared)] == Crew(n, k, Thread(op, WantShared));
    ThreadGoesOn(n, k, Thread(op, WantShared), l, Thread(op, ReaderTest), l.(mutex := true));
    ThreadGoesOn(n, k, Thread(op, ReaderTest), l.(mutex := true), Thread(op, Entering), l.(mutex := true));
    var r := l.(bus := Bus(k + 1, 0, false));
    ThreadGoesOn(n, k, Thread(op, Entering), l.(mutex := true), Thread(op, SharedReturning), r.(mutex := true));
    ThreadGoesOn(n, k, Thread(op, SharedReturning), r.(mutex := true), Thread(op, WantDrive), r);
  }

  lemma DriveAndSlot(n: nat, k: nat, l: Locks)
    requires k < n == |l.drives| && !l.drives[k] && l.freeSlots > 0
    requires Reachable(State(Crew(n, k, Thread(Drive(k), WantDrive)), l))
    ensures var r := l.(drives := l.drives[k := true], freeSlots := l.freeSlots - 1);
            Reachable(State(Crew(n, k, Thread(Drive(k), Working)), r))
  {
    var r := l.(drives := l.drives[k := true]);
    ThreadGoesOn(n, k, Thread(Drive(k), WantDrive), l, Thread(Drive(k), WantSlot), r);
    ThreadGoesOn(n, k, Thread(Drive(k), WantSlot), r, Thread(Drive(k), Working), r.(freeSlots := l.freeSlots - 1));
  }

  lemma OneMoreWorks(n: nat, k: nat)
    requires k < n && k < 8 && Reachable(AtWork(n, k))
    ensures Reachable(AtWork(n, k + 1))
  {
    OneMoreEnters(n, k);
    var l := Shares(n, k).(bus := Bus(k + 1, 0, false));
    DriveAndSlot(n, k, l);
    assert l.drives[k := true] == Shares(n, k + 1).drives;
    assert Crew(n, k, Thread(Drive(k), Working)) == Crew(n, k + 1, Thread(Shared, Idle));
  }

  lemma {:induction false} CrewIsReached(n: nat, k: nat)
    requires k <= n && k <= 8
    ensures Reachable(AtWork(n, k))
  {
    if k == 0 {
      assert IsRun(Start(n, n), []) && After(Start(n, n), []) == Start(n, n);
      assert Start(n, n).threads == AtWork(n, 0).threads && Start(n, n).locks.drives == AtWork(n, 0).locks.drives;
    } else {
      CrewIsReached(n, k - 1);
      OneMoreWorks(n, k - 1);
    }
  }

  /** The first k threads work, each with its own drive. */
  predicate WorkTogether(s: State, k: nat) {
    k <= |s.threads| && forall j | 0 <= j < k :: s.threads[j].pc.Working? && HasDrive(s.threads[j], j)
  }

  /** The mailbox work of different drives runs at the same time: with any number of drives, up to eight
      of them work at once, each holding its own. */
  lemma EightDrivesWorkAtOnce(n: nat, k: nat)
    requires k <= n && k <= 8
    ensures exists s :: Reachable(s) && |s.threads| == n && WorkTogether(s, k)
  {
    CrewIsReached(n, k);
    var s := AtWork(n, k);
    assert forall j | 0 <= j < k :: s.threads[j] == Thread(Drive(j), Working);
  }
}
