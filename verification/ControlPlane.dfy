/** The control-plane locks of one fieldbus driver as a step system over any number of threads.

    A thread runs one operation at a time: lockBus, lockBusShared, lockBusIo or lockDrive, then some
    work, then the release of everything it took. Every statement of BusLock is one step. The
    internal mutex, the two condition variables, the drive mutexes and the slot semaphore are
    explicit, so a thread can be overtaken between any two statements. */
module ControlPlane {
  import opened Sums

  /** kFrameSlots. */
  const FRAME_SLOTS: nat := 8

  datatype Op = Exclusive | Shared | Io | Drive(position: nat)

  /** Where a thread stands. A comment names the statement it runs next. */
  datatype Pc =
    | Idle
    // BusLock::lock
    | WantLock              // take mutex_
    | Registering           // ++writersWaiting_
    | WriterTest            // evaluate the wait predicate
    | WriterAsleep          // in writerCanEnter_.wait, mutex_ released
    | WriterWoken           // notified, take mutex_ again
    | Unregistering         // --writersWaiting_
    | Claiming              // writer_ = true
    | LockReturning         // release mutex_
    // the work the locks are for
    | Working
    // BusLock::unlock
    | WantUnlock            // take mutex_
    | Yielding              // writer_ = false
    | UnlockReturning       // release mutex_
    | NotifyWriter          // writerCanEnter_.notify_one
    | NotifyReaders         // readerCanEnter_.notify_all
    // BusLock::lock_shared
    | WantShared            // take mutex_
    | ReaderTest            // evaluate the wait predicate
    | ReaderAsleep          // in readerCanEnter_.wait, mutex_ released
    | ReaderWoken           // notified, take mutex_ again
    | Entering              // ++readers_
    | SharedReturning       // release mutex_
    // the rest of lockDrive and lockBusIo
    | WantDrive             // take drives_[position]
    | WantSlot              // frameSlots_.acquire
    // the members release in reverse order
    | FreeSlot              // frameSlots_.release
    | FreeDrive             // release drives_[position]
    // BusLock::unlock_shared
    | WantUnshare           // take mutex_
    | Leaving               // --readers_
    | LastTest              // last = readers_ == 0
    | UnshareReturning(last: bool)  // release mutex_
    | NotifyIfLast(last: bool)      // if (last) writerCanEnter_.notify_one

  datatype Thread = Thread(op: Op, pc: Pc)

  /** The fields of BusLock. */
  datatype Bus = Bus(readers: int, writersWaiting: int, writer: bool)

  /** Everything the threads share. */
  datatype Locks = Locks(mutex: bool, bus: Bus, drives: seq<bool>, freeSlots: int)

  datatype State = State(threads: seq<Thread>, locks: Locks)

  predicate WriterCanEnter(b: Bus) { !b.writer && b.readers == 0 }

  predicate ReaderCanEnter(b: Bus) { !b.writer && b.writersWaiting == 0 }

  // --------------------------------------------------------------------------------- the steps

  predicate TakesSlot(op: Op) { op.Io? || op.Drive? }

  /** What stops a thread: a taken mutex, an empty semaphore, a condition variable. */
  predicate CanAct(l: Locks, t: Thread) {
    match t.pc
    case Idle | WriterAsleep | ReaderAsleep => false
    case WantLock | WriterWoken | WantUnlock | WantShared | ReaderWoken | WantUnshare => !l.mutex
    case WantDrive => t.op.Drive? && t.op.position < |l.drives| && !l.drives[t.op.position]
    case WantSlot => l.freeSlots > 0
    case FreeDrive => t.op.Drive? && t.op.position < |l.drives|
    case _ => true
  }

  /** The effect of one statement on the shared state and on the thread's own position. Waking
      another thread is not part of it. */
  function Act(l: Locks, t: Thread): (r: (Locks, Pc))
    requires CanAct(l, t)
  {
    match t.pc
    case WantLock => (l.(mutex := true), Registering)
    case Registering => (l.(bus := l.bus.(writersWaiting := l.bus.writersWaiting + 1)), WriterTest)
    case WriterTest =>
      if WriterCanEnter(l.bus) then (l, Unregistering) else (l.(mutex := false), WriterAsleep)
    case WriterWoken => (l.(mutex := true), WriterTest)
    case Unregistering => (l.(bus := l.bus.(writersWaiting := l.bus.writersWaiting - 1)), Claiming)
    case Claiming => (l.(bus := l.bus.(writer := true)), LockReturning)
    case LockReturning => (l.(mutex := false), Working)
    case Working =>
      (l, if t.op.Exclusive? then WantUnlock else if t.op.Shared? then WantUnshare else FreeSlot)
    case WantUnlock => (l.(mutex := true), Yielding)
    case Yielding => (l.(bus := l.bus.(writer := false)), UnlockReturning)
    case UnlockReturning => (l.(mutex := false), NotifyWriter)
    case NotifyWriter => (l, NotifyReaders)
    case NotifyReaders => (l, Idle)
    case WantShared => (l.(mutex := true), ReaderTest)
    case ReaderTest =>
      if ReaderCanEnter(l.bus) then (l, Entering) else (l.(mutex := false), ReaderAsleep)
    case ReaderWoken => (l.(mutex := true), ReaderTest)
    case Entering => (l.(bus := l.bus.(readers := l.bus.readers + 1)), SharedReturning)
    case SharedReturning =>
      (l.(mutex := false), if t.op.Drive? then WantDrive else if t.op.Io? then WantSlot else Working)
    case WantDrive => (l.(drives := l.drives[t.op.position := true]), WantSlot)
    case WantSlot => (l.(freeSlots := l.freeSlots - 1), Working)
    case FreeSlot =>
      (l.(freeSlots := l.freeSlots + 1), if t.op.Drive? then FreeDrive else WantUnshare)
    case FreeDrive => (l.(drives := l.drives[t.op.position := false]), WantUnshare)
    case WantUnshare => (l.(mutex := true), Leaving)
    case Leaving => (l.(bus := l.bus.(readers := l.bus.readers - 1)), LastTest)
    case LastTest => (l, UnshareReturning(l.bus.readers == 0))
    case UnshareReturning(last) => (l.(mutex := false), NotifyIfLast(last))
    case NotifyIfLast(last) => (l, Idle)
  }

  /** A step of the system. */
  datatype Move =
    | Begin(i: nat, op: Op)           // an idle thread calls lockBus, lockBusShared, ...
    | Run(i: nat)                     // thread i runs its next statement
    | RunAndWake(i: nat, woken: nat)  // notify_one by thread i wakes the sleeping writer `woken`
    | Spurious(i: nat)                // a condition variable wakes thread i for no reason

  predicate NotifiesOne(pc: Pc) { pc.NotifyWriter? || (pc.NotifyIfLast? && pc.last) }

  predicate Asleep(pc: Pc) { pc.WriterAsleep? || pc.ReaderAsleep? }

  function Woken(pc: Pc): (r: Pc) {
    if pc.WriterAsleep? then WriterWoken else if pc.ReaderAsleep? then ReaderWoken else pc
  }

  function WakeReaders(ts: seq<Thread>): (r: seq<Thread>)
    ensures |r| == |ts|
  {
    seq(|ts|, i requires 0 <= i < |ts| =>
      if ts[i].pc.ReaderAsleep? then ts[i].(pc := ReaderWoken) else ts[i])
  }

  /** notify_one with a writer asleep wakes one of them, and only then. */
  predicate Enabled(s: State, m: Move) {
    && m.i < |s.threads|
    && var t := s.threads[m.i];
       match m
       case Begin(_, op) => t.pc.Idle? && (op.Drive? ==> op.position < |s.locks.drives|)
       case Run(_) =>
         CanAct(s.locks, t) &&
         (NotifiesOne(t.pc) ==> forall j :: 0 <= j < |s.threads| ==> !s.threads[j].pc.WriterAsleep?)
       case RunAndWake(_, w) =>
         NotifiesOne(t.pc) && w < |s.threads| && s.threads[w].pc.WriterAsleep?
       case Spurious(_) => Asleep(t.pc)
  }

  /** The state right after the acting thread's own statement, before any wake-up. */
  function Acted(s: State, i: nat): (r: State)
    requires i < |s.threads| && CanAct(s.locks, s.threads[i])
    ensures |r.threads| == |s.threads|
  {
    var (l, pc) := Act(s.locks, s.threads[i]);
    State(s.threads[i := s.threads[i].(pc := pc)], l)
  }

  function Next(s: State, m: Move): (r: State)
    requires Enabled(s, m)
    ensures |r.threads| == |s.threads|
  {
    var t := s.threads[m.i];
    match m
    case Begin(i, op) =>
      s.(threads := s.threads[i := Thread(op, if op.Exclusive? then WantLock else WantShared)])
    case Run(i) =>
      var a := Acted(s, i);
      if t.pc.NotifyReaders? then a.(threads := WakeReaders(a.threads)) else a
    case RunAndWake(i, w) =>
      var a := Acted(s, i);
      a.(threads := a.threads[w := a.threads[w].(pc := WriterWoken)])
    case Spurious(i) => s.(threads := s.threads[i := t.(pc := Woken(t.pc))])
  }

  // --------------------------------------------------------------------------------- whole runs

  predicate IsRun(s: State, ms: seq<Move>)
    decreases |ms|
  {
    ms == [] || (Enabled(s, ms[0]) && IsRun(Next(s, ms[0]), ms[1..]))
  }

  function After(s: State, ms: seq<Move>): (r: State)
    requires IsRun(s, ms)
    decreases |ms|
  {
    if ms == [] then s else After(Next(s, ms[0]), ms[1..])
  }

  function Start(threads: nat, positions: nat): (r: State) {
    State(seq(threads, i => Thread(Shared, Idle)),
          Locks(false, Bus(0, 0, false), seq(positions, i => false), FRAME_SLOTS))
  }

  ghost predicate Reachable(s: State) {
    exists threads: nat, positions: nat, ms: seq<Move> ::
      IsRun(Start(threads, positions), ms) && After(Start(threads, positions), ms) == s
  }

  // ------------------------------------------------------------------------- what a thread owns

  /** Holds mutex_. */
  function InCritical(t: Thread): nat {
    if t.pc.Registering? || t.pc.WriterTest? || t.pc.Unregistering? || t.pc.Claiming?
       || t.pc.LockReturning? || t.pc.Yielding? || t.pc.UnlockReturning? || t.pc.ReaderTest?
       || t.pc.Entering? || t.pc.SharedReturning? || t.pc.Leaving? || t.pc.LastTest?
       || t.pc.UnshareReturning?
    then 1 else 0
  }

  /** Counted in writersWaiting_. */
  function Registered(t: Thread): nat {
    if t.pc.WriterTest? || t.pc.WriterAsleep? || t.pc.WriterWoken? || t.pc.Unregistering?
    then 1 else 0
  }

  /** Holds the bus lock exclusive. */
  function OwnsExclusive(t: Thread): nat {
    if t.pc.LockReturning? || (t.pc.Working? && t.op.Exclusive?) || t.pc.WantUnlock? || t.pc.Yielding?
    then 1 else 0
  }

  /** Holds the bus lock shared. */
  function OwnsShared(t: Thread): nat {
    if t.pc.SharedReturning? || t.pc.WantDrive? || t.pc.WantSlot?
       || (t.pc.Working? && !t.op.Exclusive?) || t.pc.FreeSlot? || t.pc.FreeDrive?
       || t.pc.WantUnshare? || t.pc.Leaving?
    then 1 else 0
  }

  /** Holds a frame slot. */
  function OwnsSlot(t: Thread): nat {
    if TakesSlot(t.op) && (t.pc.Working? || t.pc.FreeSlot?) then 1 else 0
  }

  /** Holds the mutex of the drive at `d`. */
  predicate HasDrive(t: Thread, d: nat) {
    t.op == Drive(d) && (t.pc.WantSlot? || t.pc.Working? || t.pc.FreeSlot? || t.pc.FreeDrive?)
  }

  function OwnsDrive(d: nat): Thread -> nat {
    (t: Thread) => if HasDrive(t, d) then 1 else 0
  }

  function SleepingWriter(t: Thread): nat { if t.pc.WriterAsleep? then 1 else 0 }

  function SleepingReader(t: Thread): nat { if t.pc.ReaderAsleep? then 1 else 0 }

  /** Will notify a writer, or is a writer that is awake and about to look at the predicate. */
  function HelpsWriters(t: Thread): nat {
    if t.pc.UnlockReturning? || t.pc.NotifyWriter? || t.pc.LastTest?
       || (t.pc.UnshareReturning? && t.pc.last) || (t.pc.NotifyIfLast? && t.pc.last)
       || t.pc.WriterWoken? || t.pc.WriterTest? || t.pc.Unregistering? || t.pc.Claiming?
    then 1 else 0
  }

  /** Will notify every reader, or is a writer between the two assignments of its entry. */
  function HelpsReaders(t: Thread): nat {
    if t.pc.UnlockReturning? || t.pc.NotifyWriter? || t.pc.NotifyReaders? || t.pc.Claiming?
    then 1 else 0
  }

  // ---------------------------------------------------------------------------- the invariant

  predicate InExclusiveCode(pc: Pc) {
    pc.WantLock? || pc.Registering? || pc.WriterTest? || pc.WriterAsleep? || pc.WriterWoken?
    || pc.Unregistering? || pc.Claiming? || pc.LockReturning? || pc.WantUnlock? || pc.Yielding?
    || pc.UnlockReturning? || pc.NotifyWriter? || pc.NotifyReaders?
  }

  predicate InSharedCode(pc: Pc) {
    pc.WantShared? || pc.ReaderTest? || pc.ReaderAsleep? || pc.ReaderWoken? || pc.Entering?
    || pc.SharedReturning? || pc.WantUnshare? || pc.Leaving? || pc.LastTest? || pc.UnshareReturning?
    || pc.NotifyIfLast?
  }

  /** The operation fits the place the thread stands at. */
  predicate WellFormed(t: Thread, positions: nat) {
    && (t.op.Drive? ==> t.op.position < positions)
    && (InExclusiveCode(t.pc) ==> t.op.Exclusive?)
    && (InSharedCode(t.pc) ==> !t.op.Exclusive?)
    && (t.pc.WantDrive? || t.pc.FreeDrive? ==> t.op.Drive?)
    && (t.pc.WantSlot? || t.pc.FreeSlot? ==> TakesSlot(t.op))
  }

  /** What a thread inside the critical section knows about the fields. */
  predicate Knows(t: Thread, b: Bus) {
    && (t.pc.Unregistering? || t.pc.Claiming? ==> WriterCanEnter(b))
    && (t.pc.Entering? ==> ReaderCanEnter(b))
  }

  function Bit(b: bool): nat { if b then 1 else 0 }

  /** Every field of the bus lock is the number of threads that stand where it says. */
  ghost predicate BusCounted(s: State) {
    var ts, l := s.threads, s.locks;
    && Sum(InCritical, ts) == Bit(l.mutex)
    && Sum(OwnsExclusive, ts) == Bit(l.bus.writer)
    && Sum(OwnsShared, ts) == l.bus.readers
    && Sum(Registered, ts) == l.bus.writersWaiting
  }

  /** So are the semaphore and every drive mutex. */
  ghost predicate IoCounted(s: State) {
    var ts, l := s.threads, s.locks;
    && l.freeSlots >= 0
    && l.freeSlots + Sum(OwnsSlot, ts) == FRAME_SLOTS
    && (forall d :: 0 <= d < |l.drives| ==> Sum(OwnsDrive(d), ts) == Bit(l.drives[d]))
  }

  ghost predicate Counted(s: State) { BusCounted(s) && IoCounted(s) }

  ghost predicate Local(s: State) {
    forall i :: 0 <= i < |s.threads| ==>
      WellFormed(s.threads[i], |s.locks.drives|) && Knows(s.threads[i], s.locks.bus)
  }

  /** No waiter is stranded: whenever a sleeper could enter, somebody is on the way to it. */
  ghost predicate NobodyStranded(s: State) {
    && (WriterCanEnter(s.locks.bus) && Sum(SleepingWriter, s.threads) > 0
        ==> Sum(HelpsWriters, s.threads) > 0)
    && (ReaderCanEnter(s.locks.bus) && Sum(SleepingReader, s.threads) > 0
        ==> Sum(HelpsReaders, s.threads) > 0)
  }

  ghost predicate Inv(s: State) {
    && Local(s)
    && Counted(s)
    && (s.locks.bus.writer ==> s.locks.bus.readers == 0)
    && NobodyStranded(s)
  }

  // ------------------------------------------------------------------- every step keeps it

  /** One thread moves: every sum changes by that thread's share. */
  lemma SumsAfter(ts: seq<Thread>, i: nat, t: Thread)
    requires i < |ts|
    ensures var us := ts[i := t];
      && Sum(InCritical, us) + InCritical(ts[i]) == Sum(InCritical, ts) + InCritical(t)
      && Sum(OwnsExclusive, us) + OwnsExclusive(ts[i]) == Sum(OwnsExclusive, ts) + OwnsExclusive(t)
      && Sum(OwnsShared, us) + OwnsShared(ts[i]) == Sum(OwnsShared, ts) + OwnsShared(t)
      && Sum(Registered, us) + Registered(ts[i]) == Sum(Registered, ts) + Registered(t)
      && Sum(OwnsSlot, us) + OwnsSlot(ts[i]) == Sum(OwnsSlot, ts) + OwnsSlot(t)
      && Sum(SleepingWriter, us) + SleepingWriter(ts[i]) == Sum(SleepingWriter, ts) + SleepingWriter(t)
      && Sum(SleepingReader, us) + SleepingReader(ts[i]) == Sum(SleepingReader, ts) + SleepingReader(t)
      && Sum(HelpsWriters, us) + HelpsWriters(ts[i]) == Sum(HelpsWriters, ts) + HelpsWriters(t)
      && Sum(HelpsReaders, us) + HelpsReaders(ts[i]) == Sum(HelpsReaders, ts) + HelpsReaders(t)
  {
    SumUpdate(InCritical, ts, i, t);
    SumUpdate(OwnsExclusive, ts, i, t);
    SumUpdate(OwnsShared, ts, i, t);
    SumUpdate(Registered, ts, i, t);
    SumUpdate(OwnsSlot, ts, i, t);
    SumUpdate(SleepingWriter, ts, i, t);
    SumUpdate(SleepingReader, ts, i, t);
    SumUpdate(HelpsWriters, ts, i, t);
    SumUpdate(HelpsReaders, ts, i, t);
  }

  /** A thread that moves without taking or leaving a drive changes no drive's count. */
  lemma DrivesAfter(ts: seq<Thread>, i: nat, t: Thread)
    requires i < |ts|
    requires forall d: nat :: HasDrive(ts[i], d) == HasDrive(t, d)
    ensures forall d: nat :: Sum(OwnsDrive(d), ts[i := t]) == Sum(OwnsDrive(d), ts)
  {
    forall d: nat ensures Sum(OwnsDrive(d), ts[i := t]) == Sum(OwnsDrive(d), ts) {
      SumUpdate(OwnsDrive(d), ts, i, t);
    }
  }

  /** A weight that does not tell a woken reader from a sleeping one is unchanged by notify_all. */
  lemma SumWoken(f: Thread -> nat, ts: seq<Thread>)
    requires forall op {:trigger Thread(op, ReaderWoken)} ::
               f(Thread(op, ReaderWoken)) == f(Thread(op, ReaderAsleep))
    ensures Sum(f, WakeReaders(ts)) == Sum(f, ts)
  {
    var us := WakeReaders(ts);
    forall i | 0 <= i < |ts| ensures f(us[i]) == f(ts[i]) {
      if ts[i].pc.ReaderAsleep? {
        assert us[i] == Thread(ts[i].op, ReaderWoken) && ts[i] == Thread(ts[i].op, ReaderAsleep);
      }
    }
    SumSame(f, ts, us);
  }

  /** Waking every sleeping reader leaves no reader asleep and moves nothing else. */
  lemma SumsAfterWaking(ts: seq<Thread>)
    ensures var us := WakeReaders(ts);
      && Sum(InCritical, us) == Sum(InCritical, ts)
      && Sum(OwnsExclusive, us) == Sum(OwnsExclusive, ts)
      && Sum(OwnsShared, us) == Sum(OwnsShared, ts)
      && Sum(Registered, us) == Sum(Registered, ts)
      && Sum(OwnsSlot, us) == Sum(OwnsSlot, ts)
      && Sum(SleepingWriter, us) == Sum(SleepingWriter, ts)
      && Sum(SleepingReader, us) == 0
      && Sum(HelpsWriters, us) == Sum(HelpsWriters, ts)
  {
    SumWoken(InCritical, ts);
    SumWoken(OwnsExclusive, ts);
    SumWoken(OwnsShared, ts);
    SumWoken(Registered, ts);
    SumWoken(OwnsSlot, ts);
    SumWoken(SleepingWriter, ts);
    SumZero(SleepingReader, WakeReaders(ts));
    SumWoken(HelpsWriters, ts);
  }

  lemma DrivesAfterWaking(ts: seq<Thread>)
    ensures forall d: nat :: Sum(OwnsDrive(d), WakeReaders(ts)) == Sum(OwnsDrive(d), ts)
  {
    forall d: nat ensures Sum(OwnsDrive(d), WakeReaders(ts)) == Sum(OwnsDrive(d), ts) {
      SumWoken(OwnsDrive(d), ts);
    }
  }

  /** A thread that has the mutex, the bus, a slot or a drive is visible in the counts. */
  lemma OwnerCounts(s: State, i: nat)
    requires Counted(s) && i < |s.threads|
    ensures InCritical(s.threads[i]) <= Bit(s.locks.mutex)
    ensures OwnsExclusive(s.threads[i]) <= Bit(s.locks.bus.writer)
    ensures OwnsShared(s.threads[i]) <= s.locks.bus.readers
    ensures Registered(s.threads[i]) <= s.locks.bus.writersWaiting
    ensures OwnsSlot(s.threads[i]) + s.locks.freeSlots <= FRAME_SLOTS
    ensures forall d :: 0 <= d < |s.locks.drives| && HasDrive(s.threads[i], d) ==> s.locks.drives[d]
  {
    SumOne(InCritical, s.threads, i);
    SumOne(OwnsExclusive, s.threads, i);
    SumOne(OwnsShared, s.threads, i);
    SumOne(Registered, s.threads, i);
    SumOne(OwnsSlot, s.threads, i);
    forall d | 0 <= d < |s.locks.drives| && HasDrive(s.threads[i], d) ensures s.locks.drives[d] {
      SumOne(OwnsDrive(d), s.threads, i);
    }
  }

  /** One statement changes each field by exactly what it changes the thread's own share. */
  lemma ActBalance(l: Locks, t: Thread)
    requires CanAct(l, t) && WellFormed(t, |l.drives|) && Knows(t, l.bus)
    requires InCritical(t) <= Bit(l.mutex) && OwnsExclusive(t) <= Bit(l.bus.writer)
    ensures var (m, pc) := Act(l, t);
      var u := t.(pc := pc);
      && Bit(m.mutex) + InCritical(t) == Bit(l.mutex) + InCritical(u)
      && Bit(m.bus.writer) + OwnsExclusive(t) == Bit(l.bus.writer) + OwnsExclusive(u)
      && m.bus.readers + OwnsShared(t) == l.bus.readers + OwnsShared(u)
      && m.bus.writersWaiting + Registered(t) == l.bus.writersWaiting + Registered(u)
  {
  }

  lemma ActStaysInCode(l: Locks, t: Thread)
    requires CanAct(l, t) && WellFormed(t, |l.drives|) && Knows(t, l.bus)
    ensures var (m, pc) := Act(l, t); WellFormed(t.(pc := pc), |m.drives|) && Knows(t.(pc := pc), m.bus)
  {
  }

  /** The same for the slots and for one drive mutex. */
  lemma IoBalance(l: Locks, t: Thread, d: nat)
    requires CanAct(l, t) && WellFormed(t, |l.drives|) && d < |l.drives|
    requires HasDrive(t, d) ==> l.drives[d]
    ensures var (m, pc) := Act(l, t);
      var u := t.(pc := pc);
      && |m.drives| == |l.drives|
      && Bit(m.drives[d]) + Bit(HasDrive(t, d)) == Bit(l.drives[d]) + Bit(HasDrive(u, d))
  {
  }

  lemma SlotBalance(l: Locks, t: Thread)
    requires CanAct(l, t) && WellFormed(t, |l.drives|) && l.freeSlots >= 0
    ensures var (m, pc) := Act(l, t);
      m.freeSlots >= 0 && m.freeSlots + OwnsSlot(t.(pc := pc)) == l.freeSlots + OwnsSlot(t)
  {
  }

  /** A field changes only in the hands of the holder of mutex_. */
  lemma FieldsUnderMutex(l: Locks, t: Thread)
    requires CanAct(l, t)
    ensures Act(l, t).0.bus != l.bus ==> InCritical(t) == 1
    ensures |Act(l, t).0.drives| == |l.drives|
  {
  }

  /** Whoever enters finds the other kind gone. */
  lemma EntryExcludes(l: Locks, t: Thread)
    requires CanAct(l, t) && Knows(t, l.bus) && (l.bus.writer ==> l.bus.readers == 0)
    requires OwnsShared(t) <= l.bus.readers
    ensures Act(l, t).0.bus.writer ==> Act(l, t).0.bus.readers == 0
  {
  }

  lemma ActKeepsBusCounts(s: State, i: nat)
    requires Inv(s) && i < |s.threads| && CanAct(s.locks, s.threads[i])
    ensures BusCounted(Acted(s, i))
    ensures Acted(s, i).locks.bus.writer ==> Acted(s, i).locks.bus.readers == 0
  {
    var t := s.threads[i];
    var u := Acted(s, i).threads[i];
    assert WellFormed(t, |s.locks.drives|) && Knows(t, s.locks.bus);
    OwnerCounts(s, i);
    ActBalance(s.locks, t);
    EntryExcludes(s.locks, t);
    SumUpdate(InCritical, s.threads, i, u);
    SumUpdate(OwnsExclusive, s.threads, i, u);
    SumUpdate(OwnsShared, s.threads, i, u);
    SumUpdate(Registered, s.threads, i, u);
  }

  lemma ActKeepsIoCounts(s: State, i: nat)
    requires Inv(s) && i < |s.threads| && CanAct(s.locks, s.threads[i])
    ensures IoCounted(Acted(s, i))
  {
    var t := s.threads[i];
    var r := Acted(s, i);
    assert WellFormed(t, |s.locks.drives|);
    SlotBalance(s.locks, t);
    SumUpdate(OwnsSlot, s.threads, i, r.threads[i]);
    OwnerCounts(s, i);
    FieldsUnderMutex(s.locks, t);
    forall d | 0 <= d < |r.locks.drives|
      ensures Sum(OwnsDrive(d), r.threads) == Bit(r.locks.drives[d])
    {
      IoBalance(s.locks, t, d);
      SumUpdate(OwnsDrive(d), s.threads, i, r.threads[i]);
    }
  }

  /** Only the holder of mutex_ changes a field, so what the others know stays true. */
  lemma ActKeepsLocal(s: State, i: nat)
    requires Inv(s) && i < |s.threads| && CanAct(s.locks, s.threads[i])
    ensures Local(Acted(s, i))
  {
    var r := Acted(s, i);
    FieldsUnderMutex(s.locks, s.threads[i]);
    forall j | 0 <= j < |r.threads|
      ensures WellFormed(r.threads[j], |r.locks.drives|) && Knows(r.threads[j], r.locks.bus)
    {
      assert WellFormed(s.threads[j], |s.locks.drives|) && Knows(s.threads[j], s.locks.bus);
      if j == i {
        ActStaysInCode(s.locks, s.threads[i]);
      } else {
        assert r.threads[j] == s.threads[j];
        SumTwo(InCritical, s.threads, i, j);
        assert InCritical(s.threads[j]) == 0 ==> Knows(r.threads[j], r.locks.bus);
      }
    }
  }

  /** A statement strands nobody, once its wake-up is counted: a notify_one that found a sleeper
      wakes it, and notify_all leaves no reader asleep. */
  lemma ActKeepsHelp(s: State, i: nat)
    requires Inv(s) && i < |s.threads| && CanAct(s.locks, s.threads[i])
    ensures var r, pc := Acted(s, i), s.threads[i].pc;
      && (!NotifiesOne(pc) && WriterCanEnter(r.locks.bus) && Sum(SleepingWriter, r.threads) > 0
          ==> Sum(HelpsWriters, r.threads) > 0)
      && (!pc.NotifyReaders? && ReaderCanEnter(r.locks.bus) && Sum(SleepingReader, r.threads) > 0
          ==> Sum(HelpsReaders, r.threads) > 0)
  {
    var t := s.threads[i];
    var (l, pc) := Act(s.locks, t);
    assert WellFormed(t, |s.locks.drives|) && Knows(t, s.locks.bus);
    SumsAfter(s.threads, i, t.(pc := pc));
    OwnerCounts(s, i);
  }

  lemma LocalAfter(s: State, i: nat, t: Thread)
    requires Local(s) && i < |s.threads|
    requires WellFormed(t, |s.locks.drives|) && Knows(t, s.locks.bus)
    ensures Local(s.(threads := s.threads[i := t]))
  {
    var r := s.(threads := s.threads[i := t]);
    forall j | 0 <= j < |r.threads|
      ensures WellFormed(r.threads[j], |r.locks.drives|) && Knows(r.threads[j], r.locks.bus)
    {
      assert WellFormed(s.threads[j], |s.locks.drives|) && Knows(s.threads[j], s.locks.bus);
    }
  }

  lemma BeginKeeps(s: State, i: nat, op: Op)
    requires Inv(s) && Enabled(s, Begin(i, op))
    ensures Inv(Next(s, Begin(i, op)))
  {
    var r := Next(s, Begin(i, op));
    SumsAfter(s.threads, i, r.threads[i]);
    DrivesAfter(s.threads, i, r.threads[i]);
    LocalAfter(s, i, r.threads[i]);
  }

  /** Waking a sleeper, for a reason or for none. */
  lemma WakeKeeps(s: State, w: nat)
    requires Local(s) && Counted(s) && (s.locks.bus.writer ==> s.locks.bus.readers == 0)
    requires w < |s.threads| && Asleep(s.threads[w].pc)
    requires s.threads[w].pc.WriterAsleep? || NobodyStranded(s)
    requires ReaderCanEnter(s.locks.bus) && Sum(SleepingReader, s.threads) > 0
             ==> Sum(HelpsReaders, s.threads) > 0
    ensures Inv(s.(threads := s.threads[w := s.threads[w].(pc := Woken(s.threads[w].pc))]))
  {
    var t := s.threads[w].(pc := Woken(s.threads[w].pc));
    var r := s.(threads := s.threads[w := t]);
    SumsAfter(s.threads, w, t);
    DrivesAfter(s.threads, w, t);
    assert WellFormed(s.threads[w], |s.locks.drives|);
    LocalAfter(s, w, t);
  }

  /** notify_all. */
  lemma WakeReadersKeeps(a: State)
    requires Local(a) && Counted(a) && (a.locks.bus.writer ==> a.locks.bus.readers == 0)
    requires WriterCanEnter(a.locks.bus) && Sum(SleepingWriter, a.threads) > 0
             ==> Sum(HelpsWriters, a.threads) > 0
    ensures Inv(a.(threads := WakeReaders(a.threads)))
  {
    var r := a.(threads := WakeReaders(a.threads));
    SumsAfterWaking(a.threads);
    DrivesAfterWaking(a.threads);
    forall j | 0 <= j < |r.threads|
      ensures WellFormed(r.threads[j], |r.locks.drives|) && Knows(r.threads[j], r.locks.bus)
    {
      assert WellFormed(a.threads[j], |a.locks.drives|) && Knows(a.threads[j], a.locks.bus);
    }
  }

  lemma RunKeeps(s: State, i: nat)
    requires Inv(s) && Enabled(s, Run(i))
    ensures Inv(Next(s, Run(i)))
  {
    ActKeepsBusCounts(s, i);
    ActKeepsIoCounts(s, i);
    ActKeepsLocal(s, i);
    ActKeepsHelp(s, i);
    var a := Acted(s, i);
    if s.threads[i].pc.NotifyReaders? {
      WakeReadersKeeps(a);
    } else if NotifiesOne(s.threads[i].pc) {
      SumZero(SleepingWriter, a.threads);
    }
  }

  lemma RunAndWakeKeeps(s: State, i: nat, w: nat)
    requires Inv(s) && Enabled(s, RunAndWake(i, w))
    ensures Inv(Next(s, RunAndWake(i, w)))
  {
    ActKeepsBusCounts(s, i);
    ActKeepsIoCounts(s, i);
    ActKeepsLocal(s, i);
    ActKeepsHelp(s, i);
    WakeKeeps(Acted(s, i), w);
  }

  lemma StepKeeps(s: State, m: Move)
    requires Inv(s) && Enabled(s, m)
    ensures Inv(Next(s, m))
  {
    match m
    case Begin(i, op) => BeginKeeps(s, i, op);
    case Run(i) => RunKeeps(s, i);
    case RunAndWake(i, w) => RunAndWakeKeeps(s, i, w);
    case Spurious(i) => WakeKeeps(s, i);
  }

  lemma {:induction false} RunKeepsInv(s: State, ms: seq<Move>)
    requires Inv(s) && IsRun(s, ms)
    ensures Inv(After(s, ms))
    decreases |ms|
  {
    if ms == [] {
    } else {
      StepKeeps(s, ms[0]);
      RunKeepsInv(Next(s, ms[0]), ms[1..]);
    }
  }

  lemma StartInv(threads: nat, positions: nat)
    ensures Inv(Start(threads, positions))
  {
    var s := Start(threads, positions);
    SumZero(InCritical, s.threads);
    SumZero(OwnsExclusive, s.threads);
    SumZero(OwnsShared, s.threads);
    SumZero(Registered, s.threads);
    SumZero(OwnsSlot, s.threads);
    SumZero(SleepingWriter, s.threads);
    SumZero(SleepingReader, s.threads);
    forall d | 0 <= d < positions ensures Sum(OwnsDrive(d), s.threads) == 0 {
      SumZero(OwnsDrive(d), s.threads);
    }
  }

  /** The invariant holds in every reachable state. */
  lemma ReachableInv(s: State)
    requires Reachable(s)
    ensures Inv(s)
  {
    var threads: nat, positions: nat, ms: seq<Move> :|
      IsRun(Start(threads, positions), ms) && After(Start(threads, positions), ms) == s;
    StartInv(threads, positions);
    RunKeepsInv(Start(threads, positions), ms);
  }

  // ---------------------------------------------------------------------------- exclusion

  /** At most one exclusive holder, and beside it no shared holder, no drive lock and no frame slot.
      Every drive has at most one holder, and the eight slots are either free or held. */
  lemma Exclusion(s: State)
    requires Reachable(s)
    ensures forall i, j | 0 <= i < |s.threads| && 0 <= j < |s.threads| && i != j ::
              OwnsExclusive(s.threads[i]) == 1 ==> OwnsExclusive(s.threads[j]) == 0
    ensures forall i, j | 0 <= i < |s.threads| && 0 <= j < |s.threads| ::
              OwnsExclusive(s.threads[i]) == 1 ==>
                && OwnsShared(s.threads[j]) == 0
                && OwnsSlot(s.threads[j]) == 0
                && forall d: nat :: !HasDrive(s.threads[j], d)
    ensures forall i, j, d: nat | 0 <= i < |s.threads| && 0 <= j < |s.threads| && i != j ::
              HasDrive(s.threads[i], d) ==> !HasDrive(s.threads[j], d)
    ensures 0 <= s.locks.freeSlots && s.locks.freeSlots + Sum(OwnsSlot, s.threads) == FRAME_SLOTS
  {
    ReachableInv(s);
    forall i, j | 0 <= i < |s.threads| && 0 <= j < |s.threads| && OwnsExclusive(s.threads[i]) == 1
      ensures i != j ==> OwnsExclusive(s.threads[j]) == 0
      ensures OwnsShared(s.threads[j]) == 0 && OwnsSlot(s.threads[j]) == 0
              && forall d: nat :: !HasDrive(s.threads[j], d)
    {
      OwnerCounts(s, i);
      OwnerCounts(s, j);
      assert WellFormed(s.threads[j], |s.locks.drives|);
      if i != j {
        SumTwo(OwnsExclusive, s.threads, i, j);
      }
    }
    forall i, j, d: nat | 0 <= i < |s.threads| && 0 <= j < |s.threads| && i != j
      && HasDrive(s.threads[i], d) ensures !HasDrive(s.threads[j], d)
    {
      assert WellFormed(s.threads[i], |s.locks.drives|);
      SumTwo(OwnsDrive(d), s.threads, i, j);
    }
  }

  // ------------------------------------------------------------------------- no lost wake-up

  /** A sleeping writer that could enter has a thread on the way to it: one that will still call
      notify_one, or a writer that is already awake. A sleeping reader that could enter has a thread
      that will still call notify_all, or a writer that is just about to take the bus. */
  lemma NoLostWakeup(s: State, w: nat)
    requires Reachable(s) && w < |s.threads|
    ensures s.threads[w].pc.WriterAsleep? && WriterCanEnter(s.locks.bus) ==>
              exists h :: 0 <= h < |s.threads| && HelpsWriters(s.threads[h]) == 1
    ensures s.threads[w].pc.ReaderAsleep? && ReaderCanEnter(s.locks.bus) ==>
              exists h :: 0 <= h < |s.threads| && HelpsReaders(s.threads[h]) == 1
  {
    ReachableInv(s);
    if s.threads[w].pc.WriterAsleep? && WriterCanEnter(s.locks.bus) {
      SumOne(SleepingWriter, s.threads, w);
      var h := SumWitness(HelpsWriters, s.threads);
      assert HelpsWriters(s.threads[h]) == 1;
    }
    if s.threads[w].pc.ReaderAsleep? && ReaderCanEnter(s.locks.bus) {
      SumOne(SleepingReader, s.threads, w);
      var h := SumWitness(HelpsReaders, s.threads);
      assert HelpsReaders(s.threads[h]) == 1;
    }
  }

  // --------------------------------------------------------- critical sections as single steps

  /** What the fields of BusLock always satisfy. */
  predicate Consistent(b: Bus) {
    b.readers >= 0 && b.writersWaiting >= 0 && (b.writer ==> b.readers == 0)
  }

  /** The fields after `lock` has entered, after `unlock`, `lock_shared` and `unlock_shared`. */
  function EnteredExclusive(b: Bus): Bus { b.(writersWaiting := b.writersWaiting - 1, writer := true) }

  function LeftExclusive(b: Bus): Bus { b.(writer := false) }

  function EnteredShared(b: Bus): Bus { b.(readers := b.readers + 1) }

  function LeftShared(b: Bus): Bus { b.(readers := b.readers - 1) }

  // The statements of one critical section, run without a break, have the effect of the section: the
  // mutex is free again and the fields are the ones the functions above name.

  lemma LockIsSteps(s: State, i: nat)
    requires i < |s.threads| && s.threads[i].pc.WriterTest? && WriterCanEnter(s.locks.bus)
    ensures Acted(Acted(Acted(Acted(s, i), i), i), i).locks
         == s.locks.(mutex := false, bus := EnteredExclusive(s.locks.bus))
  {
  }

  lemma UnlockIsSteps(s: State, i: nat)
    requires i < |s.threads| && s.threads[i].pc.Yielding?
    ensures Acted(Acted(s, i), i).locks == s.locks.(mutex := false, bus := LeftExclusive(s.locks.bus))
  {
  }

  lemma LockSharedIsSteps(s: State, i: nat)
    requires i < |s.threads| && s.threads[i].pc.ReaderTest? && ReaderCanEnter(s.locks.bus)
    ensures Acted(Acted(Acted(s, i), i), i).locks
         == s.locks.(mutex := false, bus := EnteredShared(s.locks.bus))
  {
  }

  lemma UnlockSharedIsSteps(s: State, i: nat)
    requires i < |s.threads| && s.threads[i].pc.Leaving?
    ensures var r := Acted(Acted(Acted(s, i), i), i);
      && r.locks == s.locks.(mutex := false, bus := LeftShared(s.locks.bus))
      && r.threads[i].pc == NotifyIfLast(r.locks.bus.readers == 0)
  {
  }
}
