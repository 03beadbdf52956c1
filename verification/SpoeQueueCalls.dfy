/** When a call of the input queue decides: push, pop and dropOldest go by the queue as it is when they
    load the other side's counter, whatever the other side does before they act on it. */
module SpoeQueueCalls {
  import opened Bytes
  import opened SpoeInputQueues

  predicate ProducerRests(ms: seq<Move>) { forall k | 0 <= k < |ms| :: !ms[k].ProducerStep? }

  predicate ConsumerRests(ms: seq<Move>) { forall k | 0 <= k < |ms| :: !ms[k].ConsumerStep? }

  /** In the middle of a push the steps of the consumer leave the producer alone. */
  lemma {:induction false} PushWaits(q: Ring, ms: seq<Move>)
    requires IsRun(q, ms) && ProducerRests(ms) && !q.producer.NotPushing?
    ensures var r := After(q, ms);
      r.producer == q.producer && r.capacity == q.capacity && r.refused == q.refused && r.accepted == q.accepted
    decreases |ms|
  {
    if ms == [] {
    } else {
      assert !ms[0].ProducerStep?;
      PushWaits(Next(q, ms[0]), ms[1..]);
    }
  }

  lemma {:induction false} PopWaits(q: Ring, ms: seq<Move>)
    requires IsRun(q, ms) && ConsumerRests(ms) && !q.consumer.NotPopping?
    ensures var r := After(q, ms); r.consumer == q.consumer && r.events == q.events && r.tail == q.tail
    decreases |ms|
  {
    if ms == [] {
    } else {
      assert !ms[0].ConsumerStep?;
      PopWaits(Next(q, ms[0]), ms[1..]);
    }
  }

  lemma {:induction false} StaysInRange(q: Ring, ms: seq<Move>)
    requires Inv(q) && IsRun(q, ms)
    ensures Inv(After(q, ms))
  {
    RunKeeps(q, ms);
  }

  /** push refuses exactly a queue that is full when it loads tail_, and otherwise goes on to store its
      frame, however many frames the consumer takes in between. */
  lemma PushIsDecidedAtItsLoad(q: Ring, ms: seq<Move>)
    requires Reachable(q) && q.producer.HasHead? && Enabled(q, ProducerStep)
    requires IsRun(Next(q, ProducerStep), ms) && ProducerRests(ms)
    ensures Inv(q) && Enabled(After(Next(q, ProducerStep), ms), ProducerStep)
    ensures var s := After(Next(q, ProducerStep), ms);
      var t := Next(s, ProducerStep);
      if |Queue(q)| == q.capacity then
        t.producer.NotPushing? && t.refused == s.refused + 1 && t.accepted == s.accepted
      else
        t.producer == Storing(q.producer.frame, q.head, 0) && t.refused == s.refused
  {
    ReachableInv(q);
    StepKeeps(q, ProducerStep);
    StaysInRange(Next(q, ProducerStep), ms);
    PushWaits(Next(q, ProducerStep), ms);
  }

  /** pop finds nothing exactly when the queue is empty as it loads head_, and otherwise goes on to fetch
      the oldest frame. */
  lemma PopIsDecidedAtItsLoad(q: Ring, ms: seq<Move>)
    requires Reachable(q) && q.consumer.PopHasTail? && Enabled(q, ConsumerStep)
    requires IsRun(Next(q, ConsumerStep), ms) && ConsumerRests(ms)
    ensures Inv(q) && Enabled(After(Next(q, ConsumerStep), ms), ConsumerStep)
    ensures var s := After(Next(q, ConsumerStep), ms);
      var t := Next(s, ConsumerStep);
      if Queue(q) == [] then
        t.consumer.NotPopping? && t.events == s.events + [FoundEmpty] && t.tail == s.tail
      else
        t.consumer == Fetching(q.consumer.size, q.tail, []) && t.events == s.events
  {
    ReachableInv(q);
    StepKeeps(q, ConsumerStep);
    StaysInRange(Next(q, ConsumerStep), ms);
    PopWaits(Next(q, ConsumerStep), ms);
  }

  /** dropOldest removes what the queue has beyond `keep` frames as it loads head_, and says so; frames
      pushed after that stay. */
  lemma DropIsDecidedAtItsLoad(q: Ring, ms: seq<Move>)
    requires Reachable(q) && q.consumer.DropHasTail? && Enabled(q, ConsumerStep)
    requires IsRun(Next(q, ConsumerStep), ms) && ConsumerRests(ms)
    ensures Inv(q) && Enabled(After(Next(q, ConsumerStep), ms), ConsumerStep)
    ensures var s := After(Next(q, ConsumerStep), ms);
      var t, excess := Next(s, ConsumerStep), |Queue(q)| - q.consumer.keep;
      var dropped := if excess > 0 then excess else 0;
      t.consumer.NotPopping? && t.events == s.events + [Dropped(dropped)] && t.tail == s.tail + dropped
  {
    ReachableInv(q);
    StepKeeps(q, ConsumerStep);
    StaysInRange(Next(q, ConsumerStep), ms);
    PopWaits(Next(q, ConsumerStep), ms);
  }
}
