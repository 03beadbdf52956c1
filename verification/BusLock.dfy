/** The lock objects themselves: BusLock with its three fields, and the frame slots handed out by a
    counting semaphore. Each method is one section under mutex_, or one semaphore operation. Waiting
    is not part of them: it is the step system's. That the steps of a section have the effect the
    methods are proved against is ControlPlane's LockIsSteps, UnlockIsSteps, LockSharedIsSteps and
    UnlockSharedIsSteps. */
module BusLocks {
  import opened ControlPlane

  /** In every reachable state the fields are what the methods below start from and keep. */
  lemma FieldsAreConsistent(s: State)
    requires Reachable(s)
    ensures Consistent(s.locks.bus)
  {
    ReachableInv(s);
  }

  class BusLock {
    var readers: int
    var writersWaiting: int
    var writer: bool

    function Fields(): Bus
      reads this
    {
      Bus(readers, writersWaiting, writer)
    }

    constructor ()
      ensures Fields() == Bus(0, 0, false)
    {
      readers, writersWaiting, writer := 0, 0, false;
    }

    /** The first statement of `lock`. From here on no reader passes its predicate. */
    method Register()
      modifies this
      ensures Fields() == old(Fields()).(writersWaiting := old(writersWaiting) + 1)
      ensures old(Consistent(Fields())) ==> Consistent(Fields()) && !ReaderCanEnter(Fields())
    {
      writersWaiting := writersWaiting + 1;
    }

    /** One turn of the waiting loop of `lock`: enter, or go to sleep with nothing changed. */
    method TryEnterExclusive() returns (entered: bool)
      modifies this
      ensures entered == WriterCanEnter(old(Fields()))
      ensures Fields() == if entered then EnteredExclusive(old(Fields())) else old(Fields())
      ensures entered ==> !WriterCanEnter(Fields()) && !ReaderCanEnter(Fields())
      ensures old(Consistent(Fields()) && writersWaiting > 0) ==> Consistent(Fields())
    {
      entered := !writer && readers == 0;
      if entered {
        writersWaiting := writersWaiting - 1;
        writer := true;
      }
    }

    /** The holder gives the bus back: the next writer can enter at once, and a reader exactly when no
        writer waits. Both are what unlock then notifies. */
    method LeaveExclusive()
      modifies this
      ensures Fields() == LeftExclusive(old(Fields()))
      ensures old(Consistent(Fields()) && writer) ==>
        && Consistent(Fields()) && WriterCanEnter(Fields())
        && (ReaderCanEnter(Fields()) <==> writersWaiting == 0)
    {
      writer := false;
    }

    /** One turn of the waiting loop of `lock_shared`. */
    method TryEnterShared() returns (entered: bool)
      modifies this
      ensures entered == ReaderCanEnter(old(Fields()))
      ensures Fields() == if entered then EnteredShared(old(Fields())) else old(Fields())
      ensures old(Consistent(Fields())) ==> Consistent(Fields()) && (entered ==> !WriterCanEnter(Fields()))
    {
      entered := !writer && writersWaiting == 0;
      if entered {
        readers := readers + 1;
      }
    }

    /** A holder leaves. `last` says that a writer is to be notified: exactly then a writer can enter, and
        before it none could. No reader gains anything, which is why none is notified. */
    method LeaveShared() returns (last: bool)
      modifies this
      ensures Fields() == LeftShared(old(Fields()))
      ensures last <==> readers == 0
      ensures old(Consistent(Fields()) && readers > 0) ==>
        && Consistent(Fields())
        && !old(WriterCanEnter(Fields())) && (last <==> WriterCanEnter(Fields()))
        && (ReaderCanEnter(Fields()) <==> old(ReaderCanEnter(Fields())))
    {
      readers := readers - 1;
      last := readers == 0;
    }
  }

  /** The counting semaphore, with the slots that were taken from it and not given back. */
  class SlotPool {
    var free: nat
    ghost var held: set<FrameSlot>

    /** The eight slots are either free or held by a live FrameSlot. */
    ghost predicate Valid()
      reads this, held
    {
      free + |held| == FRAME_SLOTS && forall h :: h in held ==> h.slots == this
    }

    constructor ()
      ensures Valid() && free == FRAME_SLOTS && held == {}
    {
      free, held := FRAME_SLOTS, {};
    }

    /** One try of the semaphore: a slot, or none while all eight are held. */
    method TryAcquire() returns (slot: FrameSlot?)
      requires Valid()
      modifies this
      ensures Valid()
      ensures slot == null <==> |old(held)| == FRAME_SLOTS
      ensures slot == null ==> free == old(free) && held == old(held)
      ensures slot != null ==>
        fresh(slot) && slot.Valid() && slot.slots == this && free == old(free) - 1 && held == old(held) + {slot}
    {
      if free == 0 {
        return null;
      }
      slot := new FrameSlot.Acquire(this);
    }
  }

  class FrameSlot {
    /** Null once the slot was moved from. */
    var slots: SlotPool?

    ghost predicate Valid()
      reads this, slots, if slots == null then {} else slots.held
    {
      slots != null ==> this in slots.held && slots.Valid()
    }

    constructor Acquire(pool: SlotPool)
      requires pool.Valid() && pool.free > 0
      modifies pool
      ensures Valid() && slots == pool
      ensures pool.Valid() && pool.held == old(pool.held) + {this} && pool.free == old(pool.free) - 1
    {
      slots := pool;
      new;
      pool.free := pool.free - 1;
      pool.held := pool.held + {this};
    }

    /** The move constructor: the slot changes hands, and the pool does not see it. */
    constructor Move(other: FrameSlot)
      requires other.Valid()
      modifies other, other.slots
      ensures slots == old(other.slots) && other.slots == null
      ensures Valid() && other.Valid()
      ensures slots != null ==>
        slots.Valid() && slots.free == old(other.slots.free)
        && slots.held == old(other.slots.held) - {other} + {this}
    {
      slots := other.slots;
      new;
      other.slots := null;
      if slots != null {
        slots.held := slots.held - {other} + {this};
      }
    }

    /** The destructor: a slot that was moved from gives nothing back. */
    method Destroy()
      requires Valid()
      modifies this, slots
      ensures slots == null
      ensures old(slots) != null ==>
        old(slots).Valid() && old(slots).free == old(slots.free) + 1
        && old(slots).held == old(slots.held) - {this}
    {
      if slots != null {
        slots.free := slots.free + 1;
        slots.held := slots.held - {this};
        slots := null;
      }
    }
  }
}
