/** The single-producer, single-consumer queue of input frames: a flat ring of bytes and two atomic
    counters. The step system interleaves push with pop and dropOldest at every load, every store and
    every copied byte, under sequential consistency. The counters are naturals, so the runs are those
    with fewer than 2^64 pushes. */
module SpoeInputQueues {
  import opened Bytes
  import opened Remainders

  datatype Producer =
    | NotPushing
    | HasHead(frame: seq<byte>, head: nat)
    | HasBoth(frame: seq<byte>, head: nat, tail: nat)
    | Storing(frame: seq<byte>, head: nat, k: nat)  // k bytes of the frame are in the ring

  datatype Consumer =
    | NotPopping
    | PopHasTail(size: nat, tail: nat)
    | PopHasBoth(size: nat, tail: nat, head: nat)
    | Fetching(size: nat, tail: nat, bytes: seq<byte>)  // the bytes copied out so far
    | DropHasTail(keep: nat, tail: nat)
    | DropHasBoth(keep: nat, tail: nat, head: nat)

  /** What a call of the consumer returned. */
  datatype Event = Popped(size: nat, bytes: seq<byte>) | FoundEmpty | Dropped(count: nat)

  datatype Ring = Ring(
    storage: seq<byte>, frameBytes: nat, capacity: nat, head: nat, tail: nat,
    producer: Producer, consumer: Consumer,
    accepted: seq<seq<byte>>,  // the frames whose push returned true
    refused: nat,              // the pushes that returned false
    events: seq<Event>)        // what pop and dropOldest returned

  datatype Move =
    | BeginPush(frame: seq<byte>) | ProducerStep
    | BeginPop(size: nat) | BeginDrop(keep: nat) | ConsumerStep

  // ------------------------------------------------------------------------- slots of the ring

  /** Where a slot starts in the storage. */
  function Offset(slot: nat, frameBytes: nat): nat {
    if slot == 0 then 0 else Offset(slot - 1, frameBytes) + frameBytes
  }

  lemma {:induction false} OffsetIsProduct(slot: nat, frameBytes: nat)
    ensures Offset(slot, frameBytes) == slot * frameBytes
  {
    if slot == 0 {
    } else {
      OffsetIsProduct(slot - 1, frameBytes);
      assert slot * frameBytes == (slot - 1) * frameBytes + frameBytes;
    }
  }

  lemma {:induction false} OffsetsOrdered(a: nat, b: nat, frameBytes: nat)
    requires a < b
    ensures Offset(a, frameBytes) + frameBytes <= Offset(b, frameBytes)
    decreases b
  {
    if a < b - 1 {
      OffsetsOrdered(a, b - 1, frameBytes);
    }
  }

  function Start(q: Ring, i: nat): (o: nat)
    requires q.capacity > 0
    ensures o + q.frameBytes <= Offset(q.capacity, q.frameBytes)
  {
    OffsetsOrdered(Rem(i, q.capacity), q.capacity, q.frameBytes);
    Offset(Rem(i, q.capacity), q.frameBytes)
  }

  /** The frame the ring holds for counter value i. */
  function FrameAt(q: Ring, i: nat): (f: seq<byte>)
    requires q.capacity > 0 && |q.storage| == Offset(q.capacity, q.frameBytes)
    ensures |f| == q.frameBytes
  {
    q.storage[Start(q, i)..Start(q, i) + q.frameBytes]
  }

  // --------------------------------------------------------------------------------- the steps

  function Reset(frameBytes: nat, capacity: nat): Ring {
    Ring(seq(Offset(capacity, frameBytes), i => 0), frameBytes, capacity, 0, 0,
         NotPushing, NotPopping, [], 0, [])
  }

  /** The states on which every index of a step is in range. A run never leaves them, in particular
      the modulo is never taken of a ring without capacity. */
  predicate InRange(q: Ring) {
    && |q.storage| == Offset(q.capacity, q.frameBytes)
    && (match q.producer
        case Storing(frame, head, k) =>
          q.capacity > 0 && |frame| == q.frameBytes && k <= q.frameBytes
        case _ => true)
    && (match q.consumer
        case PopHasBoth(_, tail, head) => tail != head ==> q.capacity > 0
        case Fetching(size, tail, bytes) =>
          q.capacity > 0 && |bytes| <= Min(size, q.frameBytes)
        case DropHasBoth(keep, tail, head) => tail <= head
        case _ => true)
  }

  /** A push is of a frame of the size the queue was made for. */
  predicate Enabled(q: Ring, m: Move) {
    && InRange(q)
    && match m
       case BeginPush(frame) => q.producer.NotPushing? && |frame| == q.frameBytes
       case ProducerStep => !q.producer.NotPushing?
       case BeginPop(_) => q.consumer.NotPopping?
       case BeginDrop(_) => q.consumer.NotPopping?
       case ConsumerStep => !q.consumer.NotPopping?
  }

  function ProducerNext(q: Ring): Ring
    requires Enabled(q, ProducerStep)
  {
    match q.producer
    case HasHead(frame, head) => q.(producer := HasBoth(frame, head, q.tail))
    case HasBoth(frame, head, tail) =>
      if q.capacity == 0 || head - tail >= q.capacity then
        q.(producer := NotPushing, refused := q.refused + 1)
      else
        q.(producer := Storing(frame, head, 0))
    case Storing(frame, head, k) =>
      if k < |frame| then
        q.(storage := q.storage[Start(q, head) + k := frame[k]], producer := Storing(frame, head, k + 1))
      else
        q.(head := head + 1, producer := NotPushing, accepted := q.accepted + [frame])
  }

  function ConsumerNext(q: Ring): Ring
    requires Enabled(q, ConsumerStep)
  {
    match q.consumer
    case PopHasTail(size, tail) => q.(consumer := PopHasBoth(size, tail, q.head))
    case PopHasBoth(size, tail, head) =>
      if tail == head then q.(consumer := NotPopping, events := q.events + [FoundEmpty])
      else q.(consumer := Fetching(size, tail, []))
    case Fetching(size, tail, bytes) =>
      if |bytes| < Min(size, q.frameBytes) then
        q.(consumer := Fetching(size, tail, bytes + [q.storage[Start(q, tail) + |bytes|]]))
      else
        q.(tail := tail + 1, consumer := NotPopping, events := q.events + [Popped(size, bytes)])
    case DropHasTail(keep, tail) => q.(consumer := DropHasBoth(keep, tail, q.head))
    case DropHasBoth(keep, tail, head) =>
      if head - tail <= keep then q.(consumer := NotPopping, events := q.events + [Dropped(0)])
      else
        var dropped := head - tail - keep;
        q.(tail := tail + dropped, consumer := NotPopping, events := q.events + [Dropped(dropped)])
  }

  function Next(q: Ring, m: Move): Ring
    requires Enabled(q, m)
  {
    match m
    case BeginPush(frame) => q.(producer := HasHead(frame, q.head))
    case ProducerStep => ProducerNext(q)
    case BeginPop(size) => q.(consumer := PopHasTail(size, q.tail))
    case BeginDrop(keep) => q.(consumer := DropHasTail(keep, q.tail))
    case ConsumerStep => ConsumerNext(q)
  }

  predicate IsRun(q: Ring, ms: seq<Move>)
    decreases |ms|
  {
    ms == [] || (Enabled(q, ms[0]) && IsRun(Next(q, ms[0]), ms[1..]))
  }

  function After(q: Ring, ms: seq<Move>): Ring
    requires IsRun(q, ms)
    decreases |ms|
  {
    if ms == [] then q else After(Next(q, ms[0]), ms[1..])
  }

  ghost predicate Reachable(q: Ring) {
    exists frameBytes: nat, capacity: nat, ms: seq<Move> ::
      IsRun(Reset(frameBytes, capacity), ms) && After(Reset(frameBytes, capacity), ms) == q
  }

  // ------------------------------------------------------------------------------ the invariant

  /** The frames a call of the consumer took out of the queue. */
  function Removed(e: Event): nat {
    match e
    case Popped(_, _) => 1
    case FoundEmpty => 0
    case Dropped(count) => count
  }

  /** Where the consumer stands in the accepted frames after the given calls. */
  function Position(events: seq<Event>): nat {
    if events == [] then 0 else
      Position(events[..|events| - 1]) + Removed(events[|events| - 1])
  }

  predicate Counters(q: Ring) {
    && q.head == |q.accepted|
    && q.tail <= q.head <= q.tail + q.capacity
    && q.tail == Position(q.events)
  }

  /** What each side has loaded is still its own counter, and the other counter only grew. */
  predicate Loaded(q: Ring) {
    && (match q.producer
        case NotPushing => true
        case HasHead(frame, head) => head == q.head && |frame| == q.frameBytes
        case HasBoth(frame, head, tail) => head == q.head && tail <= q.tail && |frame| == q.frameBytes
        case Storing(frame, head, k) => head == q.head && q.head < q.tail + q.capacity)
    && (match q.consumer
        case NotPopping => true
        case PopHasTail(_, tail) => tail == q.tail
        case PopHasBoth(_, tail, head) => tail == q.tail && tail <= head <= q.head
        case Fetching(_, tail, _) => tail == q.tail && tail < q.head
        case DropHasTail(_, tail) => tail == q.tail
        case DropHasBoth(_, tail, head) => tail == q.tail && tail <= head <= q.head)
  }

  /** The live slots hold the accepted frames, the half-written one and the half-read one included. */
  predicate Stored(q: Ring)
    requires InRange(q) && Counters(q)
  {
    && (forall i | q.tail <= i < q.head :: FrameAt(q, i) == q.accepted[i])
    && (q.producer.Storing? ==>
          FrameAt(q, q.producer.head)[..q.producer.k] == q.producer.frame[..q.producer.k])
    && (q.consumer.Fetching? && q.tail < q.head ==>
          q.consumer.bytes == q.accepted[q.tail][..|q.consumer.bytes|])
  }

  /** A frame cut to a caller's buffer. */
  function Cropped(frame: seq<byte>, size: nat): seq<byte> { frame[..Min(size, |frame|)] }

  /** Every pop returned the accepted frame at its position, cut to the caller's buffer. */
  ghost predicate EventsGood(q: Ring) {
    forall k :: 0 <= k < |q.events| && q.events[k].Popped? ==>
      Position(q.events[..k]) < |q.accepted|
      && q.events[k].bytes == Cropped(q.accepted[Position(q.events[..k])], q.events[k].size)
  }

  ghost predicate Inv(q: Ring) {
    && InRange(q) && Counters(q) && Loaded(q)
    && (forall i :: 0 <= i < |q.accepted| ==> |q.accepted[i]| == q.frameBytes)
    && Stored(q) && EventsGood(q)
  }

  lemma PositionSnoc(events: seq<Event>, e: Event)
    ensures Position(events + [e]) == Position(events) + Removed(e)
  {
    assert (events + [e])[..|events|] == events;
  }

  /** A byte written into the slot of counter `h` leaves the frame of every other live counter alone
      and extends what the slot itself holds. */
  lemma StoreByte(q: Ring, h: nat, k: nat, x: byte, i: nat)
    requires q.capacity > 0 && |q.storage| == Offset(q.capacity, q.frameBytes) && k < q.frameBytes
    requires i <= h < i + q.capacity
    ensures var r := q.(storage := q.storage[Start(q, h) + k := x]);
      && (i != h ==> FrameAt(r, i) == FrameAt(q, i))
      && (i == h ==> FrameAt(r, h) == FrameAt(q, h)[k := x])
  {
    var r := q.(storage := q.storage[Start(q, h) + k := x]);
    assert Start(r, i) == Start(q, i) && Start(r, h) == Start(q, h);
    if i != h {
      RemsDiffer(i, h, q.capacity);
      var a, b := Rem(i, q.capacity), Rem(h, q.capacity);
      if a < b {
        OffsetsOrdered(a, b, q.frameBytes);
      } else {
        OffsetsOrdered(b, a, q.frameBytes);
      }
    }
  }

  lemma StoringKeeps(q: Ring)
    requires Inv(q) && q.producer.Storing? && q.producer.k < q.frameBytes
    ensures Inv(ProducerNext(q))
  {
    var r := ProducerNext(q);
    var Storing(frame, head, k) := q.producer;
    forall i | q.tail <= i <= q.head
      ensures i < q.head ==> FrameAt(r, i) == FrameAt(q, i)
      ensures i == q.head ==> FrameAt(r, i) == FrameAt(q, i)[k := frame[k]]
    {
      StoreByte(q, head, k, frame[k], i);
      assert FrameAt(r, i) == FrameAt(q.(storage := r.storage), i);
    }
    var f, g := FrameAt(q, head), FrameAt(r, head);
    assert g[..k + 1] == f[..k] + [frame[k]] == frame[..k + 1];
  }

  /** The last step of a push: the new frame is live, and the slots before it are as they were. */
  lemma PublishKeeps(q: Ring)
    requires Inv(q) && q.producer.Storing? && q.producer.k == q.frameBytes
    ensures Inv(ProducerNext(q))
  {
    var r := ProducerNext(q);
    var f := FrameAt(q, q.head);
    assert f == f[..q.frameBytes] && q.producer.frame == q.producer.frame[..q.frameBytes];
    forall i | r.tail <= i < r.head ensures FrameAt(r, i) == r.accepted[i] {
      assert FrameAt(r, i) == FrameAt(q, i);
    }
  }

  lemma ProducerKeeps(q: Ring)
    requires Inv(q) && Enabled(q, ProducerStep)
    ensures Inv(ProducerNext(q))
  {
    if q.producer.Storing? {
      if q.producer.k < q.frameBytes {
        StoringKeeps(q);
      } else {
        PublishKeeps(q);
      }
    } else {
      var r := ProducerNext(q);
      forall i | r.tail <= i < r.head ensures FrameAt(r, i) == r.accepted[i] {
        assert FrameAt(r, i) == FrameAt(q, i);
      }
    }
  }

  /** A call of the consumer that returns moves its position by what it says it removed. */
  lemma EventKeeps(q: Ring, r: Ring, e: Event)
    requires EventsGood(q) && r.events == q.events + [e] && r.accepted == q.accepted
    requires e.Popped? ==>
      Position(q.events) < |q.accepted| && e.bytes == Cropped(q.accepted[Position(q.events)], e.size)
    ensures EventsGood(r)
  {
    forall k | 0 <= k < |r.events| && r.events[k].Popped?
      ensures Position(r.events[..k]) < |r.accepted|
              && r.events[k].bytes == Cropped(r.accepted[Position(r.events[..k])], r.events[k].size)
    {
      if k < |q.events| {
        assert r.events[..k] == q.events[..k];
      } else {
        assert r.events[..k] == q.events;
      }
    }
  }

  lemma FetchingKeeps(q: Ring)
    requires Inv(q) && q.consumer.Fetching? && |q.consumer.bytes| < Min(q.consumer.size, q.frameBytes)
    ensures Inv(ConsumerNext(q))
  {
    var r := ConsumerNext(q);
    var n, f := |q.consumer.bytes|, q.accepted[q.tail];
    assert FrameAt(q, q.tail)[n] == f[n];
    assert f[..n + 1] == f[..n] + [f[n]];
    forall i | r.tail <= i < r.head ensures FrameAt(r, i) == r.accepted[i] {
      assert FrameAt(r, i) == FrameAt(q, i);
    }
    assert r.producer.Storing? ==> FrameAt(r, r.producer.head) == FrameAt(q, q.producer.head);
  }

  /** A step that leaves the ring, the producer and the accepted frames alone, and at most frees
      slots, keeps what is stored. */
  lemma StoredStays(q: Ring, r: Ring)
    requires Inv(q) && InRange(r) && Counters(r)
    requires r.storage == q.storage && r.frameBytes == q.frameBytes && r.capacity == q.capacity
    requires r.head == q.head && r.tail >= q.tail && r.producer == q.producer && r.accepted == q.accepted
    requires r.consumer.Fetching? ==> r.consumer.bytes == []
    ensures Stored(r)
  {
    forall i | r.tail <= i < r.head ensures FrameAt(r, i) == r.accepted[i] {
      assert FrameAt(r, i) == FrameAt(q, i);
    }
    assert r.producer.Storing? ==> FrameAt(r, r.producer.head) == FrameAt(q, q.producer.head);
  }

  /** A call of the consumer has loaded a counter, or has decided to copy. */
  lemma ConsumerLoadKeeps(q: Ring)
    requires Inv(q) && Enabled(q, ConsumerStep)
    requires !q.consumer.Fetching? && !ConsumerNext(q).consumer.NotPopping?
    ensures Inv(ConsumerNext(q))
  {
    StoredStays(q, ConsumerNext(q));
  }

  /** A call of the consumer has returned, and removed what it says it removed. */
  lemma ReturnKeeps(q: Ring, r: Ring, e: Event)
    requires Inv(q) && r == q.(tail := r.tail, consumer := NotPopping, events := q.events + [e])
    requires r.tail == q.tail + Removed(e) <= q.head
    requires e.Popped? ==> q.tail < q.head && e.bytes == Cropped(q.accepted[q.tail], e.size)
    ensures Inv(r)
  {
    PositionSnoc(q.events, e);
    EventKeeps(q, r, e);
    StoredStays(q, r);
  }

  /** pop returns a frame. */
  lemma PopReturnKeeps(q: Ring)
    requires Inv(q) && q.consumer.Fetching? && |q.consumer.bytes| == Min(q.consumer.size, q.frameBytes)
    ensures Inv(ConsumerNext(q))
  {
    ReturnKeeps(q, ConsumerNext(q), Popped(q.consumer.size, q.consumer.bytes));
  }

  /** pop finds the queue empty, or dropOldest returns. */
  lemma OtherReturnKeeps(q: Ring)
    requires Inv(q) && Enabled(q, ConsumerStep) && ConsumerNext(q).consumer.NotPopping?
    requires q.consumer.PopHasBoth? || q.consumer.DropHasBoth?
    ensures Inv(ConsumerNext(q))
  {
    var r := ConsumerNext(q);
    ReturnKeeps(q, r, if q.consumer.PopHasBoth? then FoundEmpty else Dropped(r.tail - q.tail));
  }

  lemma ConsumerKeeps(q: Ring)
    requires Inv(q) && Enabled(q, ConsumerStep)
    ensures Inv(ConsumerNext(q))
  {
    if q.consumer.Fetching? {
      if |q.consumer.bytes| < Min(q.consumer.size, q.frameBytes) {
        FetchingKeeps(q);
      } else {
        PopReturnKeeps(q);
      }
    } else if ConsumerNext(q).consumer.NotPopping? {
      OtherReturnKeeps(q);
    } else {
      ConsumerLoadKeeps(q);
    }
  }

  lemma BeginKeeps(q: Ring, m: Move)
    requires Inv(q) && Enabled(q, m) && !m.ProducerStep? && !m.ConsumerStep?
    ensures Inv(Next(q, m))
  {
    var r := Next(q, m);
    forall i | r.tail <= i < r.head ensures FrameAt(r, i) == r.accepted[i] {
      assert FrameAt(r, i) == FrameAt(q, i);
    }
    assert r.producer.Storing? ==> FrameAt(r, r.producer.head) == FrameAt(q, q.producer.head);
  }

  lemma StepKeeps(q: Ring, m: Move)
    requires Inv(q) && Enabled(q, m)
    ensures Inv(Next(q, m))
  {
    match m
    case ProducerStep => ProducerKeeps(q);
    case ConsumerStep => ConsumerKeeps(q);
    case _ => BeginKeeps(q, m);
  }

  lemma {:induction false} RunKeeps(q: Ring, ms: seq<Move>)
    requires Inv(q) && IsRun(q, ms)
    ensures Inv(After(q, ms))
    decreases |ms|
  {
    if ms == [] {
    } else {
      StepKeeps(q, ms[0]);
      RunKeeps(Next(q, ms[0]), ms[1..]);
    }
  }

  lemma ReachableInv(q: Ring)
    requires Reachable(q)
    ensures Inv(q)
  {
    var frameBytes: nat, capacity: nat, ms: seq<Move> :|
      IsRun(Reset(frameBytes, capacity), ms) && After(Reset(frameBytes, capacity), ms) == q;
    RunKeeps(Reset(frameBytes, capacity), ms);
  }

  // ------------------------------------------------------------------------------ the theorems

  /** The queue as a client sees it, read from the storage and the two counters alone. */
  function Queue(q: Ring): (f: seq<seq<byte>>)
    requires |q.storage| == Offset(q.capacity, q.frameBytes) && q.tail <= q.head
    requires q.tail < q.head ==> q.capacity > 0
    ensures |f| == q.head - q.tail
  {
    seq(q.head - q.tail, i requires 0 <= i < q.head - q.tail => FrameAt(q, q.tail + i))
  }

  lemma QueueIsAccepted(q: Ring)
    requires Inv(q)
    ensures Queue(q) == q.accepted[q.tail..q.head]
  {
  }

  /** What a step of the consumer may do to the queue: nothing, or one call returns and has removed
      what it says. */
  ghost predicate ConsumerRefines(q: Ring, r: Ring)
    requires Inv(q) && Inv(r)
  {
    if !r.consumer.NotPopping? then Queue(r) == Queue(q) && r.events == q.events else
      && |r.events| == |q.events| + 1
      && q.events == r.events[..|q.events|]
      && match r.events[|q.events|]
         case Popped(size, bytes) =>
           q.consumer.Fetching? && Queue(q) != [] && Queue(r) == Queue(q)[1..]
           && size == q.consumer.size && bytes == Cropped(Queue(q)[0], size)
         case FoundEmpty => Queue(r) == Queue(q)
         case Dropped(count) => count <= |Queue(q)| && Queue(r) == Queue(q)[count..]
  }

  /** And a step of the producer: nothing, or the push returns true and its frame is at the end, or it
      returns false. */
  ghost predicate ProducerRefines(q: Ring, r: Ring)
    requires Inv(q) && Inv(r)
  {
    && r.events == q.events
    && if q.producer.Storing? && r.producer.NotPushing? then
         |Queue(q)| < q.capacity && Queue(r) == Queue(q) + [q.producer.frame] && r.refused == q.refused
       else
         Queue(r) == Queue(q) && r.refused == q.refused + if r.producer.NotPushing? then 1 else 0
  }

  lemma PopReturnRefines(q: Ring)
    requires Inv(q) && q.consumer.Fetching? && |q.consumer.bytes| == Min(q.consumer.size, q.frameBytes)
    requires Inv(ConsumerNext(q))
    ensures ConsumerRefines(q, ConsumerNext(q))
  {
    QueueIsAccepted(q);
    QueueIsAccepted(ConsumerNext(q));
  }

  lemma OtherReturnRefines(q: Ring)
    requires Inv(q) && (q.consumer.PopHasBoth? || q.consumer.DropHasBoth?)
    requires Inv(ConsumerNext(q))
    ensures ConsumerRefines(q, ConsumerNext(q))
  {
    QueueIsAccepted(q);
    QueueIsAccepted(ConsumerNext(q));
  }

  lemma ConsumerStepRefines(q: Ring)
    requires Inv(q) && Enabled(q, ConsumerStep)
    ensures Inv(ConsumerNext(q)) && ConsumerRefines(q, ConsumerNext(q))
  {
    ConsumerKeeps(q);
    if q.consumer.PopHasBoth? || q.consumer.DropHasBoth? {
      OtherReturnRefines(q);
    } else if q.consumer.Fetching? && |q.consumer.bytes| == Min(q.consumer.size, q.frameBytes) {
      PopReturnRefines(q);
    } else {
      QueueIsAccepted(q);
      QueueIsAccepted(ConsumerNext(q));
    }
  }

  lemma ProducerStepRefines(q: Ring)
    requires Inv(q) && Enabled(q, ProducerStep)
    ensures Inv(ProducerNext(q)) && ProducerRefines(q, ProducerNext(q))
  {
    ProducerKeeps(q);
    QueueIsAccepted(q);
    QueueIsAccepted(ProducerNext(q));
  }

  /** The ring refines a bounded FIFO. Every step of every interleaving leaves the queue as it is,
      appends the pushed frame to a queue that is not full, removes the first frame and returns it,
      or removes exactly as many of the oldest frames as dropOldest returns. */
  lemma RefinesFifo(q: Ring, m: Move)
    requires Reachable(q) && Enabled(q, m)
    ensures Inv(q) && Inv(Next(q, m)) && |Queue(q)| <= q.capacity
    ensures m.ProducerStep? ==> ProducerRefines(q, Next(q, m))
    ensures m.ConsumerStep? ==> ConsumerRefines(q, Next(q, m))
    ensures !m.ProducerStep? && !m.ConsumerStep? ==> Queue(Next(q, m)) == Queue(q)
  {
    ReachableInv(q);
    match m
    case ProducerStep => ProducerStepRefines(q);
    case ConsumerStep => ConsumerStepRefines(q);
    case _ => BeginKeeps(q, m); QueueIsAccepted(q); QueueIsAccepted(Next(q, m));
  }

  /** Each call decides by the queue as it is when the call loads the other side's counter: push
      refuses exactly a full queue, pop finds nothing exactly in an empty one, and dropOldest leaves
      exactly the newest `keep` frames. What happens after that load cannot change the decision. */
  lemma CallsDecideByTheQueue(q: Ring)
    requires Reachable(q)
    ensures Inv(q)
    ensures q.producer.HasHead? ==>
      var HasBoth(_, head, tail) := ProducerNext(q).producer;
      (q.capacity == 0 || head - tail >= q.capacity) == (|Queue(q)| == q.capacity)
    ensures q.consumer.PopHasTail? ==>
      var PopHasBoth(_, tail, head) := ConsumerNext(q).consumer;
      (tail == head) == (Queue(q) == [])
    ensures q.consumer.DropHasTail? ==>
      var DropHasBoth(keep, tail, head) := ConsumerNext(q).consumer;
      head - tail == |Queue(q)|
  {
    ReachableInv(q);
  }

  function PoppedIn(events: seq<Event>): nat {
    if events == [] then 0 else
      PoppedIn(events[..|events| - 1]) + if events[|events| - 1].Popped? then 1 else 0
  }

  function DroppedIn(events: seq<Event>): nat {
    if events == [] then 0 else
      DroppedIn(events[..|events| - 1]) +
      match events[|events| - 1] case Dropped(count) => count case _ => 0
  }

  lemma {:induction false} PositionCounts(events: seq<Event>)
    ensures Position(events) == PoppedIn(events) + DroppedIn(events)
  {
    if events == [] {
    } else {
      PositionCounts(events[..|events| - 1]);
    }
  }

  /** Over a whole run: the popped frames are accepted frames in the order they were pushed, each cut to
      the buffer of its caller and at the position that the calls before it have left, so the gaps are
      exactly the dropped counts. Every accepted frame is popped, dropped or still queued. */
  lemma PopsFollowPushes(q: Ring)
    requires Reachable(q)
    ensures Inv(q)
    ensures forall k :: 0 <= k < |q.events| && q.events[k].Popped? ==>
      Position(q.events[..k]) < |q.accepted|
      && q.events[k].bytes == Cropped(q.accepted[Position(q.events[..k])], q.events[k].size)
    ensures |q.accepted| == PoppedIn(q.events) + DroppedIn(q.events) + |Queue(q)|
    ensures Queue(q) == q.accepted[PoppedIn(q.events) + DroppedIn(q.events)..]
  {
    ReachableInv(q);
    QueueIsAccepted(q);
    PositionCounts(q.events);
  }

  // --------------------------------------------------------------------------- the class itself

  /** A whole frame written into one slot leaves the frame in every other one alone. */
  lemma OtherSlotStays(q: Ring, frame: seq<byte>, i: nat)
    requires |q.storage| == Offset(q.capacity, q.frameBytes) && |frame| == q.frameBytes
    requires i < q.head < i + q.capacity
    ensures var o := Start(q, q.head);
      var r := q.(storage := q.storage[..o] + frame + q.storage[o + q.frameBytes..]);
      FrameAt(r, i) == FrameAt(q, i)
  {
    RemsDiffer(i, q.head, q.capacity);
    var a, b := Rem(i, q.capacity), Rem(q.head, q.capacity);
    if a < b {
      OffsetsOrdered(a, b, q.frameBytes);
    } else {
      OffsetsOrdered(b, a, q.frameBytes);
    }
  }

  /** A whole frame written into the slot after the last live one. */
  lemma StoreFrame(q: Ring, frame: seq<byte>)
    requires |q.storage| == Offset(q.capacity, q.frameBytes) && |frame| == q.frameBytes
    requires q.tail <= q.head < q.tail + q.capacity
    ensures var o := Start(q, q.head);
      var r := q.(storage := q.storage[..o] + frame + q.storage[o + q.frameBytes..], head := q.head + 1);
      |r.storage| == |q.storage| && Queue(r) == Queue(q) + [frame]
  {
    var o := Start(q, q.head);
    var r := q.(storage := q.storage[..o] + frame + q.storage[o + q.frameBytes..], head := q.head + 1);
    assert FrameAt(r, q.head) == frame;
    forall i | q.tail <= i < q.head ensures FrameAt(r, i) == FrameAt(q, i) {
      OtherSlotStays(q, frame, i);
    }
  }

  /** A slot after std::copy_n of as much of the frame as fits. */
  function Filled(frame: seq<byte>, slot: seq<byte>): (r: seq<byte>)
    ensures |r| == |slot|
    ensures |frame| == |slot| ==> r == frame
  {
    var n := Min(|frame|, |slot|);
    frame[..n] + slot[n..]
  }

  lemma CopiedIn(storage: seq<byte>, slot: nat, size: nat, front: seq<byte>)
    requires slot + size <= |storage| && |front| <= size
    ensures storage[..slot] + front + storage[slot + |front|..]
         == storage[..slot] + (front + storage[slot..slot + size][|front|..]) + storage[slot + size..]
  {
  }

  lemma StoreFront(q: Ring, frame: seq<byte>)
    requires |q.storage| == Offset(q.capacity, q.frameBytes)
    requires q.tail <= q.head < q.tail + q.capacity
    ensures var o, n := Start(q, q.head), Min(|frame|, q.frameBytes);
      var r := q.(storage := q.storage[..o] + frame[..n] + q.storage[o + n..], head := q.head + 1);
      |r.storage| == |q.storage| && Queue(r) == Queue(q) + [Filled(frame, FrameAt(q, q.head))]
  {
    var o, n := Start(q, q.head), Min(|frame|, q.frameBytes);
    CopiedIn(q.storage, o, q.frameBytes, frame[..n]);
    StoreFrame(q, Filled(frame, FrameAt(q, q.head)));
  }

  lemma QueueAfterDrop(q: Ring, d: nat)
    requires |q.storage| == Offset(q.capacity, q.frameBytes) && q.tail + d <= q.head <= q.tail + q.capacity
    ensures Queue(q.(tail := q.tail + d)) == Queue(q)[d..]
  {
    forall i | q.tail <= i < q.head ensures FrameAt(q.(tail := q.tail + d), i) == FrameAt(q, i) {
    }
  }

  /** std::copy_n into the caller's buffer, as many bytes as fit. */
  method CopyOut(source: seq<byte>, buffer: array<byte>)
    modifies buffer
    ensures forall k :: 0 <= k < buffer.Length ==>
      buffer[k] == if k < |source| then source[k] else old(buffer[k])
  {
    var n, k := Min(buffer.Length, |source|), 0;
    while k < n
      invariant 0 <= k <= n
      invariant forall j :: 0 <= j < buffer.Length ==>
        buffer[j] == if j < k then source[j] else old(buffer[j])
    {
      buffer[k] := source[k];
      k := k + 1;
    }
  }

  /** push, pop and dropOldest as calls, one after the other. */
  class SpoeInputQueue {
    var storage: seq<byte>
    var frameBytes: nat
    var capacity: nat
    var head: nat
    var tail: nat

    ghost function View(): Ring
      reads this
    {
      Ring(storage, frameBytes, capacity, head, tail, NotPushing, NotPopping, [], 0, [])
    }

    ghost predicate Valid()
      reads this
    {
      |storage| == Offset(capacity, frameBytes) && tail <= head <= tail + capacity
    }

    ghost function Contents(): (f: seq<seq<byte>>)
      requires Valid()
      reads this
    {
      Queue(View())
    }

    constructor (frameBytes: nat, capacity: nat)
      ensures Valid() && Contents() == []
      ensures this.frameBytes == frameBytes && this.capacity == capacity
    {
      this.frameBytes, this.capacity := frameBytes, capacity;
      OffsetIsProduct(capacity, frameBytes);
      storage := seq(frameBytes * capacity, i => 0);
      head, tail := 0, 0;
    }

    /** A frame of the full size goes to the end. Of a longer one only the front does, and a shorter one
        is completed by what its slot held before. */
    method Push(frame: seq<byte>) returns (ok: bool)
      requires Valid()
      modifies this
      ensures Valid() && frameBytes == old(frameBytes) && capacity == old(capacity)
      ensures ok == (|old(Contents())| < capacity)
      ensures !ok ==> Contents() == old(Contents())
      ensures ok ==> Contents() == old(Contents()) + [Filled(frame, old(FrameAt(View(), head)))]
    {
      if capacity == 0 || head - tail >= capacity {
        return false;
      }
      RemIsMod(head, capacity);
      OffsetIsProduct(head % capacity, frameBytes);
      StoreFront(View(), frame);
      ghost var start := Start(View(), head);
      var slot := (head % capacity) * frameBytes;
      var n := Min(|frame|, frameBytes);
      storage := storage[..slot] + frame[..n] + storage[slot + n..];
      head := head + 1;
      ok := true;
    }

    /** Copies as much of the oldest frame as fits the caller's buffer. */
    method Pop(buffer: array<byte>) returns (ok: bool)
      requires Valid()
      modifies this, buffer
      ensures Valid() && frameBytes == old(frameBytes) && capacity == old(capacity)
      ensures ok == (old(Contents()) != [])
      ensures !ok ==> Contents() == old(Contents()) && buffer[..] == old(buffer[..])
      ensures ok ==> Contents() == old(Contents())[1..] && |old(Contents())[0]| == frameBytes
      ensures ok ==> forall k :: 0 <= k < buffer.Length ==>
        buffer[k] == if k < frameBytes then old(Contents())[0][k] else old(buffer[k])
    {
      if tail == head {
        return false;
      }
      RemIsMod(tail, capacity);
      OffsetIsProduct(tail % capacity, frameBytes);
      QueueAfterDrop(View(), 1);
      ghost var start := Start(View(), tail);
      var slot := (tail % capacity) * frameBytes;
      assert Contents()[0] == FrameAt(View(), tail) == storage[slot..slot + frameBytes];
      CopyOut(storage[slot..slot + frameBytes], buffer);
      tail := tail + 1;
      ok := true;
    }

    /** At most `keep` frames remain, the newest ones. */
    method DropOldest(keep: nat) returns (dropped: nat)
      requires Valid()
      modifies this
      ensures Valid() && frameBytes == old(frameBytes) && capacity == old(capacity)
      ensures dropped == if |old(Contents())| <= keep then 0 else |old(Contents())| - keep
      ensures Contents() == old(Contents())[dropped..]
    {
      var queued := head - tail;
      dropped := 0;
      if queued > keep {
        dropped := queued - keep;
        QueueAfterDrop(View(), dropped);
        tail := tail + dropped;
      }
    }
  }
}
