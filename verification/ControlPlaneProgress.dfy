/** The control-plane locks get on: no deadlock, no livelock, and every operation completes. */
module ControlPlaneProgress {
  import opened Sums
  import opened ControlPlane

  // ------------------------------------------------------------------------ deadlock freedom

  predicate AllIdle(s: State) {
    forall i :: 0 <= i < |s.threads| ==> s.threads[i].pc.Idle?
  }

  /** A step of a thread that has work to do, not a new operation and not a spurious wake-up. */
  predicate Progress(m: Move) { m.Run? || m.RunAndWake? }

  /** Without a thread that can act, everybody who is not idle waits for a lock. */
  lemma StuckThreadsWait(s: State)
    requires Inv(s)
    requires forall i :: 0 <= i < |s.threads| ==> !CanAct(s.locks, s.threads[i])
    ensures !s.locks.mutex
    ensures forall i :: 0 <= i < |s.threads| ==>
      var pc := s.threads[i].pc;
      pc.Idle? || pc.WriterAsleep? || pc.ReaderAsleep? || pc.WantDrive? || pc.WantSlot?
  {
    if s.locks.mutex {
      var i := SumWitness(InCritical, s.threads);
      assert CanAct(s.locks, s.threads[i]);
    }
    forall i | 0 <= i < |s.threads|
      ensures var pc := s.threads[i].pc;
        pc.Idle? || pc.WriterAsleep? || pc.ReaderAsleep? || pc.WantDrive? || pc.WantSlot?
    {
      assert WellFormed(s.threads[i], |s.locks.drives|) && !CanAct(s.locks, s.threads[i]);
    }
  }

  /** The order bus, drive, slot: nobody can wait for a slot, so nobody can wait for a drive. */
  lemma StuckThreadsSleep(s: State)
    requires Inv(s)
    requires forall i :: 0 <= i < |s.threads| ==> !CanAct(s.locks, s.threads[i])
    ensures forall i :: 0 <= i < |s.threads| ==>
      s.threads[i].pc.Idle? || s.threads[i].pc.WriterAsleep? || s.threads[i].pc.ReaderAsleep?
  {
    StuckThreadsWait(s);
    SumZero(OwnsSlot, s.threads);
    forall i | 0 <= i < |s.threads| ensures !s.threads[i].pc.WantSlot? {
      assert !CanAct(s.locks, s.threads[i]);
    }
    forall i | 0 <= i < |s.threads| ensures !s.threads[i].pc.WantDrive? {
      var t := s.threads[i];
      assert WellFormed(t, |s.locks.drives|) && !CanAct(s.locks, t);
      if t.pc.WantDrive? {
        SumZero(OwnsDrive(t.op.position), s.threads);
        assert false;
      }
    }
  }

  /** With only sleepers left, the bus is free, so somebody would have to be on the way to them. */
  lemma StuckMeansDone(s: State)
    requires Inv(s)
    requires forall i :: 0 <= i < |s.threads| ==> !CanAct(s.locks, s.threads[i])
    ensures AllIdle(s)
  {
    StuckThreadsSleep(s);
    SumZero(OwnsExclusive, s.threads);
    SumZero(OwnsShared, s.threads);
    SumZero(HelpsWriters, s.threads);
    SumZero(HelpsReaders, s.threads);
    forall i | 0 <= i < |s.threads| ensures !s.threads[i].pc.WriterAsleep? {
      SumOne(SleepingWriter, s.threads, i);
    }
    SumZero(Registered, s.threads);
    forall i | 0 <= i < |s.threads| ensures s.threads[i].pc.Idle? {
      SumOne(SleepingReader, s.threads, i);
    }
  }

  /** Every reachable state with an unfinished thread has a step that is not a spurious wake-up. */
  lemma DeadlockFree(s: State)
    requires Reachable(s) && !AllIdle(s)
    ensures exists m :: Progress(m) && Enabled(s, m)
  {
    ReachableInv(s);
    if forall i :: 0 <= i < |s.threads| ==> !CanAct(s.locks, s.threads[i]) {
      StuckMeansDone(s);
      assert false;
    }
    var i :| 0 <= i < |s.threads| && CanAct(s.locks, s.threads[i]);
    if NotifiesOne(s.threads[i].pc) && exists w :: 0 <= w < |s.threads| && s.threads[w].pc.WriterAsleep? {
      var w :| 0 <= w < |s.threads| && s.threads[w].pc.WriterAsleep?;
      assert Enabled(s, RunAndWake(i, w));
    } else {
      assert Enabled(s, Run(i));
    }
  }

  // ------------------------------------------------------------- every operation completes

  /** What a thread still has to spend: `p` for each statement of its operation that is left, the
      waiting loop counted once, and one or two more while it is awake inside that loop. */
  function Cost(p: nat, t: Thread): nat {
    match t.pc
    case Idle => 0
    case WantLock => 12 * p
    case Registering => 11 * p
    case WriterWoken => 10 * p + 2
    case WriterTest => 10 * p + 1
    case WriterAsleep => 10 * p
    case Unregistering => 9 * p
    case Claiming => 8 * p
    case LockReturning => 7 * p
    case Working => if t.op.Exclusive? then 6 * p else 10 * p
    case WantUnlock => 5 * p
    case Yielding => 4 * p
    case UnlockReturning => 3 * p
    case NotifyWriter => 2 * p
    case NotifyReaders => p
    case WantShared => 16 * p
    case ReaderWoken => 15 * p + 2
    case ReaderTest => 15 * p + 1
    case ReaderAsleep => 15 * p
    case Entering => 14 * p
    case SharedReturning => 13 * p
    case WantDrive => 12 * p
    case WantSlot => 11 * p
    case FreeSlot => 9 * p
    case FreeDrive => 8 * p
    case WantUnshare => 7 * p
    case Leaving => 6 * p
    case LastTest => 5 * p
    case UnshareReturning(_) => 4 * p
    case NotifyIfLast(_) => 3 * p
  }

  function CostAt(p: nat): Thread -> nat { (t: Thread) => Cost(p, t) }

  /** One statement pays for waking every thread. */
  function Price(s: State): nat { 2 * |s.threads| + 1 }

  function Budget(s: State): nat { Sum(CostAt(Price(s)), s.threads) }

  /** A statement makes a thread cheaper, a notifying statement by the whole price. */
  lemma ActAdvances(p: nat, l: Locks, t: Thread)
    requires p >= 3 && CanAct(l, t) && WellFormed(t, |l.drives|)
    ensures Cost(p, t.(pc := Act(l, t).1)) < Cost(p, t)
    ensures NotifiesOne(t.pc) || t.pc.NotifyReaders? ==>
              Cost(p, t.(pc := Act(l, t).1)) + p <= Cost(p, t)
  {
  }

  lemma ActCosts(s: State, i: nat)
    requires Inv(s) && i < |s.threads| && CanAct(s.locks, s.threads[i])
    ensures Budget(Acted(s, i)) < Budget(s)
    ensures NotifiesOne(s.threads[i].pc) || s.threads[i].pc.NotifyReaders? ==>
              Budget(Acted(s, i)) + Price(s) <= Budget(s)
  {
    var t := s.threads[i];
    assert WellFormed(t, |s.locks.drives|);
    ActAdvances(Price(s), s.locks, t);
    SumUpdate(CostAt(Price(s)), s.threads, i, Acted(s, i).threads[i]);
  }

  lemma WakingCosts(p: nat, ts: seq<Thread>)
    ensures Sum(CostAt(p), WakeReaders(ts)) <= Sum(CostAt(p), ts) + 2 * |ts|
  {
    SumGrowth(CostAt(p), ts, WakeReaders(ts), 2);
  }

  lemma WakingOneCosts(p: nat, ts: seq<Thread>, w: nat)
    requires w < |ts| && ts[w].pc.WriterAsleep?
    ensures Sum(CostAt(p), ts[w := ts[w].(pc := WriterWoken)]) == Sum(CostAt(p), ts) + 2
  {
    SumUpdate(CostAt(p), ts, w, ts[w].(pc := WriterWoken));
  }

  lemma RunCosts(s: State, i: nat)
    requires Inv(s) && Enabled(s, Run(i))
    ensures Budget(Next(s, Run(i))) < Budget(s)
  {
    ActCosts(s, i);
    var ts, r := Acted(s, i).threads, Next(s, Run(i));
    WakingCosts(Price(s), ts);
    assert Price(r) == Price(s) && (r.threads == ts || r.threads == WakeReaders(ts));
  }

  lemma RunAndWakeCosts(s: State, i: nat, w: nat)
    requires Inv(s) && Enabled(s, RunAndWake(i, w))
    ensures Budget(Next(s, RunAndWake(i, w))) < Budget(s)
  {
    ActCosts(s, i);
    var ts, r := Acted(s, i).threads, Next(s, RunAndWake(i, w));
    WakingOneCosts(Price(s), ts, w);
    assert Price(r) == Price(s) && r.threads == ts[w := ts[w].(pc := WriterWoken)];
  }

  /** A statement of a thread costs at least one unit of the budget, the wake-ups included. */
  lemma ProgressCosts(s: State, m: Move)
    requires Inv(s) && Enabled(s, m) && Progress(m)
    ensures Budget(Next(s, m)) < Budget(s)
  {
    if m.Run? {
      RunCosts(s, m.i);
    } else {
      RunAndWakeCosts(s, m.i, m.woken);
    }
  }

  /** What a step may add to the budget, and one for the step itself. A spurious wake-up adds two
      units, a new operation the price of sixteen statements. */
  function Grant(p: nat, m: Move): nat {
    match m
    case Begin(_, _) => 16 * p + 1
    case Spurious(_) => 3
    case _ => 0
  }

  function GrantAt(p: nat): Move -> nat { (m: Move) => Grant(p, m) }

  lemma ChangeCosts(p: nat, ts: seq<Thread>, i: nat, t: Thread, more: nat)
    requires i < |ts| && Cost(p, t) <= Cost(p, ts[i]) + more
    ensures Sum(CostAt(p), ts[i := t]) <= Sum(CostAt(p), ts) + more
  {
    SumUpdate(CostAt(p), ts, i, t);
  }

  lemma BeginCosts(s: State, i: nat, op: Op)
    requires Enabled(s, Begin(i, op))
    ensures Budget(Next(s, Begin(i, op))) <= Budget(s) + 16 * Price(s)
  {
    ChangeCosts(Price(s), s.threads, i, Next(s, Begin(i, op)).threads[i], 16 * Price(s));
  }

  lemma SpuriousCosts(s: State, i: nat)
    requires Enabled(s, Spurious(i))
    ensures Budget(Next(s, Spurious(i))) <= Budget(s) + 2
  {
    ChangeCosts(Price(s), s.threads, i, Next(s, Spurious(i)).threads[i], 2);
  }

  lemma OthersCost(s: State, m: Move)
    requires Enabled(s, m) && !Progress(m)
    ensures Budget(Next(s, m)) + 1 <= Budget(s) + Grant(Price(s), m)
  {
    if m.Begin? {
      BeginCosts(s, m.i, m.op);
    } else {
      SpuriousCosts(s, m.i);
    }
  }

  /** No livelock: in every run, whatever the scheduler does, the number of steps is bounded by what
      is under way at the start, the operations begun and the spurious wake-ups. */
  lemma {:induction false} RunsAreBounded(s: State, ms: seq<Move>)
    requires Inv(s) && IsRun(s, ms)
    ensures |ms| + Budget(After(s, ms)) <= Budget(s) + Sum(GrantAt(Price(s)), ms)
    decreases |ms|
  {
    if ms == [] {
    } else {
      StepKeeps(s, ms[0]);
      RunsAreBounded(Next(s, ms[0]), ms[1..]);
      if Progress(ms[0]) {
        ProgressCosts(s, ms[0]);
      } else {
        OthersCost(s, ms[0]);
      }
    }
  }

  lemma ShortRun(s: State, ms: seq<Move>)
    requires Inv(s) && IsRun(s, ms)
    ensures |ms| <= Budget(s) + Sum(GrantAt(Price(s)), ms)
  {
    RunsAreBounded(s, ms);
  }

  function SpuriousWake(m: Move): nat { Bit(m.Spurious?) }

  lemma {:induction false} SpuriousGrants(p: nat, ms: seq<Move>)
    requires forall k :: 0 <= k < |ms| ==> !ms[k].Begin?
    ensures Sum(GrantAt(p), ms) == 3 * Sum(SpuriousWake, ms)
  {
    if ms == [] {
    } else {
      assert !ms[0].Begin?;
      SpuriousGrants(p, ms[1..]);
    }
  }

  /** Every operation that was begun completes: from a reachable state, every run without new
      operations ends after at most Budget(s) steps and three for each spurious wake-up, and a run that
      only a spurious wake-up could continue has finished the operation of every thread. */
  lemma EveryOperationCompletes(s: State, ms: seq<Move>)
    requires Reachable(s) && IsRun(s, ms)
    requires forall k :: 0 <= k < |ms| ==> !ms[k].Begin?
    ensures |ms| <= Budget(s) + 3 * Sum(SpuriousWake, ms)
    ensures (forall m :: Progress(m) ==> !Enabled(After(s, ms), m)) ==> AllIdle(After(s, ms))
  {
    ReachableInv(s);
    SpuriousGrants(Price(s), ms);
    ShortRun(s, ms);
    if !AllIdle(After(s, ms)) {
      StaysReachable(s, ms);
      DeadlockFree(After(s, ms));
    }
  }

  lemma {:induction false} RunsCompose(s: State, ms: seq<Move>, ns: seq<Move>)
    requires IsRun(s, ms) && IsRun(After(s, ms), ns)
    ensures IsRun(s, ms + ns) && After(s, ms + ns) == After(After(s, ms), ns)
    decreases |ms|
  {
    if ms == [] {
      assert ms + ns == ns;
    } else {
      assert (ms + ns)[1..] == ms[1..] + ns;
      RunsCompose(Next(s, ms[0]), ms[1..], ns);
    }
  }

  lemma StaysReachable(s: State, ms: seq<Move>)
    requires Reachable(s) && IsRun(s, ms)
    ensures Reachable(After(s, ms))
  {
    var threads: nat, positions: nat, ns: seq<Move> :|
      IsRun(Start(threads, positions), ns) && After(Start(threads, positions), ns) == s;
    RunsCompose(Start(threads, positions), ns, ms);
    assert IsRun(Start(threads, positions), ns + ms);
  }
}
