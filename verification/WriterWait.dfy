/** What a registered writer waits for: only for holds that have started, and not for ever. */
module WriterWaits {
  import opened Sums
  import opened ControlPlane
  import opened ControlPlaneProgress

  // ------------------------------------------------------------------------ writer preference

  /** Thread w is a registered writer in every state of the run, the last one included. */
  predicate Waits(s: State, ms: seq<Move>, w: nat)
    requires IsRun(s, ms) && w < |s.threads|
    decreases |ms|
  {
    && Registered(s.threads[w]) == 1
    && (ms != [] ==> Waits(Next(s, ms[0]), ms[1..], w))
  }

  lemma ActAdmitsNoReader(l: Locks, t: Thread)
    requires CanAct(l, t) && WellFormed(t, |l.drives|) && Knows(t, l.bus) && l.bus.writersWaiting > 0
    ensures OwnsShared(t.(pc := Act(l, t).1)) <= OwnsShared(t)
  {
  }

  /** While a writer is registered, nobody gets the bus shared: a thread that holds it after the step
      held it before. */
  lemma StepAdmitsNoReader(s: State, m: Move, w: nat, j: nat)
    requires Inv(s) && Enabled(s, m)
    requires w < |s.threads| && Registered(s.threads[w]) == 1
    requires j < |s.threads| && OwnsShared(Next(s, m).threads[j]) == 1
    ensures OwnsShared(s.threads[j]) == 1
  {
    OwnerCounts(s, w);
    assert Knows(s.threads[j], s.locks.bus) && WellFormed(s.threads[j], |s.locks.drives|);
    if j == m.i && Progress(m) {
      ActAdmitsNoReader(s.locks, s.threads[j]);
    }
  }

  lemma {:induction false} WaitingAdmitsNoReader(s: State, ms: seq<Move>, w: nat)
    requires Inv(s) && IsRun(s, ms) && w < |s.threads| && Waits(s, ms, w)
    ensures |After(s, ms).threads| == |s.threads|
    ensures forall j | 0 <= j < |s.threads| ::
              OwnsShared(After(s, ms).threads[j]) == 1 ==> OwnsShared(s.threads[j]) == 1
    ensures After(s, ms).locks.bus.readers <= s.locks.bus.readers
    decreases |ms|
  {
    if ms == [] {
    } else {
      var r := Next(s, ms[0]);
      StepKeeps(s, ms[0]);
      WaitingAdmitsNoReader(r, ms[1..], w);
      forall j | 0 <= j < |s.threads| && OwnsShared(r.threads[j]) == 1
        ensures OwnsShared(s.threads[j]) == 1
      {
        StepAdmitsNoReader(s, ms[0], w, j);
      }
      SumGrowth(OwnsShared, s.threads, r.threads, 0);
    }
  }

  /** Writer preference over a whole run: from the step that registers a writer until it enters, the
      shared holders are among those that held the bus at the start, and their number only falls. */
  lemma WriterPreference(s: State, ms: seq<Move>, w: nat)
    requires Reachable(s) && IsRun(s, ms) && w < |s.threads| && Waits(s, ms, w)
    ensures |After(s, ms).threads| == |s.threads|
    ensures forall j | 0 <= j < |s.threads| ::
              OwnsShared(After(s, ms).threads[j]) == 1 ==> OwnsShared(s.threads[j]) == 1
    ensures After(s, ms).locks.bus.readers <= s.locks.bus.readers
  {
    ReachableInv(s);
    WaitingAdmitsNoReader(s, ms, w);
  }

  // ---------------------------------------------------------------------- and not for ever

  /** A thread can begin an operation while a writer waits, unless it stands before a shared entry. */
  function MayBegin(t: Thread): nat {
    if t.pc.WantShared? || t.pc.ReaderTest? || t.pc.ReaderAsleep? || t.pc.ReaderWoken? then 0 else 1
  }

  lemma ActPassesNoReader(l: Locks, t: Thread)
    requires CanAct(l, t) && Knows(t, l.bus) && l.bus.writersWaiting > 0
    ensures MayBegin(t.(pc := Act(l, t).1)) <= MayBegin(t)
  {
  }

  /** While a writer is registered, a thread before a shared entry stays there. */
  lemma StepPassesNoReader(s: State, m: Move, w: nat, j: nat)
    requires Inv(s) && Enabled(s, m)
    requires w < |s.threads| && Registered(s.threads[w]) == 1 && j < |s.threads|
    ensures MayBegin(Next(s, m).threads[j]) <= MayBegin(s.threads[j])
  {
    OwnerCounts(s, w);
    assert Knows(s.threads[j], s.locks.bus);
    if j == m.i && Progress(m) {
      ActPassesNoReader(s.locks, s.threads[j]);
    }
  }

  /** An operation that takes the bus shared is begun: a shared section, a transfer or a drive. */
  predicate BeginsShared(m: Move) { m.Begin? && !m.op.Exclusive? }

  lemma StepUsesBegin(s: State, m: Move, w: nat)
    requires Inv(s) && Enabled(s, m)
    requires w < |s.threads| && Registered(s.threads[w]) == 1
    ensures Sum(MayBegin, Next(s, m).threads) + Bit(BeginsShared(m)) <= Sum(MayBegin, s.threads)
  {
    var r := Next(s, m);
    if BeginsShared(m) {
      SumUpdate(MayBegin, s.threads, m.i, r.threads[m.i]);
    } else {
      forall j | 0 <= j < |s.threads| ensures MayBegin(r.threads[j]) <= MayBegin(s.threads[j]) + 0 {
        StepPassesNoReader(s, m, w, j);
      }
      SumGrowth(MayBegin, s.threads, r.threads, 0);
    }
  }

  /** `n` grants of `g`. */
  function Times(g: nat, n: nat): nat { if n == 0 then 0 else g + Times(g, n - 1) }

  lemma {:induction false} TimesIsProduct(g: nat, n: nat)
    ensures Times(g, n) == g * n
  {
    if n == 0 {
    } else {
      TimesIsProduct(g, n - 1);
    }
  }

  lemma {:induction false} TimesGrows(g: nat, a: nat, b: nat)
    requires a <= b
    ensures Times(g, a) <= Times(g, b)
    decreases b
  {
    if a < b {
      TimesGrows(g, a, b - 1);
    }
  }

  /** What a step other than beginning a shared operation may add to the budget. */
  function Extra(p: nat, m: Move): nat { if BeginsShared(m) then 0 else Grant(p, m) }

  function ExtraAt(p: nat): Move -> nat { (m: Move) => Extra(p, m) }

  lemma OneGrant(g: nat, a: nat, b: nat, one: nat, rest: nat, extra: nat)
    requires a + one <= b && one <= 1 && rest <= Times(g, a) + extra
    ensures (if one == 1 then g else 0) + rest <= Times(g, b) + extra
  {
    TimesGrows(g, a + one, b);
  }

  lemma StepIsGranted(s: State, m: Move, w: nat, p: nat, rest: nat, extra: nat)
    requires Inv(s) && Enabled(s, m)
    requires w < |s.threads| && Registered(s.threads[w]) == 1
    requires rest <= Times(16 * p + 1, Sum(MayBegin, Next(s, m).threads)) + extra
    ensures Grant(p, m) + rest <= Times(16 * p + 1, Sum(MayBegin, s.threads)) + Extra(p, m) + extra
  {
    StepUsesBegin(s, m, w);
    OneGrant(16 * p + 1, Sum(MayBegin, Next(s, m).threads), Sum(MayBegin, s.threads),
             Bit(BeginsShared(m)), rest, extra);
  }

  /** So every thread begins a shared operation at most once during the wait. */
  lemma {:induction false} BeginsAreFew(s: State, ms: seq<Move>, w: nat, p: nat)
    requires Inv(s) && IsRun(s, ms) && w < |s.threads| && Waits(s, ms, w)
    ensures Sum(GrantAt(p), ms) <= Times(16 * p + 1, Sum(MayBegin, s.threads)) + Sum(ExtraAt(p), ms)
    decreases |ms|
  {
    if ms == [] {
    } else {
      StepKeeps(s, ms[0]);
      BeginsAreFew(Next(s, ms[0]), ms[1..], w, p);
      StepIsGranted(s, ms[0], w, p, Sum(GrantAt(p), ms[1..]), Sum(ExtraAt(p), ms[1..]));
    }
  }

  /** What the lock is for: however the shared holds overlap and however many are begun, they keep a
      registered writer for a bounded number of steps. Only further exclusive operations and spurious
      wake-ups add to the bound, each its own grant. Until the writer enters there is always a step to
      take. */
  lemma WriterWaitIsBounded(s: State, ms: seq<Move>, w: nat)
    requires Reachable(s) && IsRun(s, ms) && w < |s.threads| && Waits(s, ms, w)
    ensures |ms| <= Budget(s) + (16 * Price(s) + 1) * |s.threads| + Sum(ExtraAt(Price(s)), ms)
    ensures exists m :: Progress(m) && Enabled(After(s, ms), m)
  {
    ReachableInv(s);
    WaitBound(s, ms, w, Price(s));
    TimesIsProduct(16 * Price(s) + 1, |s.threads|);
    WaitGoesOn(s, ms, w);
  }

  /** So without those the bound is that of the state the wait began in. */
  lemma OrdinaryWaitIsBounded(s: State, ms: seq<Move>, w: nat)
    requires Reachable(s) && IsRun(s, ms) && w < |s.threads| && Waits(s, ms, w)
    requires forall k :: 0 <= k < |ms| ==> BeginsShared(ms[k]) || Progress(ms[k])
    ensures |ms| <= Budget(s) + (16 * Price(s) + 1) * |s.threads|
  {
    WriterWaitIsBounded(s, ms, w);
    SumZero(ExtraAt(Price(s)), ms);
  }

  lemma OneEach(g: nat, ts: seq<Thread>)
    ensures Times(g, Sum(MayBegin, ts)) <= Times(g, |ts|)
  {
    SumAtMost(MayBegin, ts, 1);
    TimesGrows(g, Sum(MayBegin, ts), |ts|);
  }

  lemma WaitBound(s: State, ms: seq<Move>, w: nat, p: nat)
    requires Inv(s) && IsRun(s, ms) && w < |s.threads| && Waits(s, ms, w) && p == Price(s)
    ensures |ms| <= Budget(s) + Times(16 * p + 1, |s.threads|) + Sum(ExtraAt(p), ms)
  {
    ShortRun(s, ms);
    BeginsAreFew(s, ms, w, p);
    OneEach(16 * p + 1, s.threads);
  }

  lemma WaitGoesOn(s: State, ms: seq<Move>, w: nat)
    requires Reachable(s) && IsRun(s, ms) && w < |s.threads| && Waits(s, ms, w)
    ensures exists m :: Progress(m) && Enabled(After(s, ms), m)
  {
    StaysReachable(s, ms);
    StillRegistered(s, ms, w);
    DeadlockFree(After(s, ms));
  }

  lemma {:induction false} StillRegistered(s: State, ms: seq<Move>, w: nat)
    requires IsRun(s, ms) && w < |s.threads| && Waits(s, ms, w)
    ensures w < |After(s, ms).threads| && Registered(After(s, ms).threads[w]) == 1
    decreases |ms|
  {
    if ms == [] {
    } else {
      StillRegistered(Next(s, ms[0]), ms[1..], w);
    }
  }
}
