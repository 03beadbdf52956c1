/** One connection to one drive: requests, replies matched by sequence id and type, late replies.

    A socket write succeeds, fails or misses the deadline. The reads of one request are a list of
    chunks and errors; when the list is used up, the next read misses the deadline. */
module SpoeConnections {
  import opened Bytes
  import opened SpoeFrames

  datatype WriteOutcome = Sent | WriteFailed | WriteTimedOut

  datatype ReadOutcome = Chunk(bytes: seq<byte>) | ReadFailed

  /** What a request returns. */
  datatype Outcome = Reply(frame: Frame) | Timeout | Closed | InvalidRequest

  /** The fields of the connection. */
  datatype Conn = Conn(open: bool, nextId: u16, received: seq<byte>, discarded: nat)

  /** closeLocked. */
  function CloseLocked(c: Conn): Conn { c.(open := false, received := []) }

  /** connect closes first; the sequence ids go on. */
  function Connected(c: Conn, success: bool): Conn { CloseLocked(c).(open := success) }

  /** How the loop of request ends: the outcome, the bytes still kept, whether the connection is still
      open, every frame taken, and the reads that were not made. */
  datatype LoopEnd = LoopEnd(outcome: Outcome, received: seq<byte>, open: bool,
                             taken: seq<Frame>, left: seq<ReadOutcome>)

  predicate Matches(f: Frame, kind: byte, id: u16) { f.sequenceId == id && f.kind == kind }

  /** The loop of request, from the bytes received so far. */
  function Loop(received: seq<byte>, kind: byte, id: u16, arrivals: seq<ReadOutcome>): (e: LoopEnd)
    decreases |arrivals|, |received|
  {
    match TakeFrame(received)
    case Oversize(_) => LoopEnd(Closed, [], false, [], arrivals)
    case Took(f, rest) =>
      if Matches(f, kind, id) then LoopEnd(Reply(f), rest, true, [f], arrivals)
      else var e := Loop(rest, kind, id, arrivals); e.(taken := [f] + e.taken)
    case Incomplete =>
      if arrivals == [] then LoopEnd(Timeout, received, true, [], [])
      else if arrivals[0].ReadFailed? then LoopEnd(Closed, [], false, [], arrivals[1..])
      else Loop(received + arrivals[0].bytes, kind, id, arrivals[1..])
  }

  /** The bytes of the reads, up to the first one that fails. */
  function Delivered(arrivals: seq<ReadOutcome>): seq<byte> {
    if arrivals == [] || arrivals[0].ReadFailed? then [] else
      arrivals[0].bytes + Delivered(arrivals[1..])
  }

  /** The frames taken and not returned. */
  function Discards(e: LoopEnd): nat
    requires e.outcome.Reply? ==> e.taken != []
  {
    |e.taken| - if e.outcome.Reply? then 1 else 0
  }

  /** The loop that still has to run ends as the whole loop does, after `n` more discards. */
  predicate SameEnd(whole: LoopEnd, left: LoopEnd, n: int) {
    && whole.outcome == left.outcome && whole.open == left.open && whole.received == left.received
    && (whole.outcome.Reply? ==> whole.taken != [])
    && |whole.taken| == n + |left.taken|
  }

  function NextId(id: u16): u16 { (id + 1) % 0x1_0000 }

  /** Every frame taken before the last is not the answer, and the last one is the outcome if there is
      one. So each frame is returned or discarded. */
  lemma {:induction false} LoopReturnsTheMatch(received: seq<byte>, kind: byte, id: u16,
                                              arrivals: seq<ReadOutcome>)
    ensures var e := Loop(received, kind, id, arrivals);
      && (e.outcome.Reply? ==>
            e.taken != [] && e.open && e.outcome.frame == e.taken[|e.taken| - 1]
            && Matches(e.outcome.frame, kind, id))
      && (e.open <==> !e.outcome.Closed?) && !e.outcome.InvalidRequest?
      && (!e.open ==> e.received == [])
      && (forall k :: 0 <= k < |e.taken| - (if e.outcome.Reply? then 1 else 0) ==>
            !Matches(e.taken[k], kind, id))
    decreases |arrivals|, |received|
  {
    match TakeFrame(received)
    case Oversize(_) =>
    case Took(f, rest) =>
      if !Matches(f, kind, id) {
        LoopReturnsTheMatch(rest, kind, id, arrivals);
      }
    case Incomplete =>
      if arrivals != [] && !arrivals[0].ReadFailed? {
        LoopReturnsTheMatch(received + arrivals[0].bytes, kind, id, arrivals[1..]);
      }
  }

  /** request. Returns the connection afterwards, the outcome, the frames taken and the reads not made. */
  datatype Answer = Answer(conn: Conn, outcome: Outcome, taken: seq<Frame>, left: seq<ReadOutcome>)

  function Request(c: Conn, kind: byte, status: u16, data: seq<byte>,
                   write: WriteOutcome, arrivals: seq<ReadOutcome>): (a: Answer)
  {
    if !c.open then Answer(c, Closed, [], arrivals) else
      var d := c.(nextId := NextId(c.nextId));
      if EncodeFrame(Frame(kind, c.nextId, status, data)).Err? then Answer(d, InvalidRequest, [], arrivals)
      else if write != Sent then Answer(CloseLocked(d), Closed, [], arrivals)
      else
        LoopReturnsTheMatch(c.received, kind, c.nextId, arrivals);
        var e := Loop(c.received, kind, c.nextId, arrivals);
        Answer(Conn(e.open, d.nextId, e.received, c.discarded + Discards(e)), e.outcome, e.taken, e.left)
  }

  /** A request uses one sequence id, counts each frame it takes and does not return, and leaves no
      byte behind when it closes the connection. */
  lemma RequestCounts(c: Conn, kind: byte, status: u16, data: seq<byte>,
                      write: WriteOutcome, arrivals: seq<ReadOutcome>)
    ensures var a := Request(c, kind, status, data, write, arrivals);
      && a.conn.nextId == (if c.open then NextId(c.nextId) else c.nextId)
      && a.conn.discarded + (if a.outcome.Reply? then 1 else 0) == c.discarded + |a.taken|
      && (c.open && !a.conn.open ==> a.conn.received == [])
      && (a.outcome.Reply? ==>
            a.taken != [] && a.conn.open && a.outcome.frame == a.taken[|a.taken| - 1])
  {
    LoopReturnsTheMatch(c.received, kind, c.nextId, arrivals);
  }

  /** Of the frames a request takes, exactly the one it returns matches it. */
  lemma RequestReturnsTheMatch(c: Conn, kind: byte, status: u16, data: seq<byte>,
                               write: WriteOutcome, arrivals: seq<ReadOutcome>)
    ensures var a := Request(c, kind, status, data, write, arrivals);
      forall k :: 0 <= k < |a.taken| ==>
        (Matches(a.taken[k], kind, c.nextId) <==> a.outcome.Reply? && k == |a.taken| - 1)
  {
    LoopReturnsTheMatch(c.received, kind, c.nextId, arrivals);
  }

  // --------------------------------------------------------------------------- the class itself

  class SpoeConnection {
    var open: bool
    var nextSequenceId: u16
    var received: seq<byte>
    var discarded: nat

    ghost function Fields(): Conn
      reads this
    {
      Conn(open, nextSequenceId, received, discarded)
    }

    constructor ()
      ensures Fields() == Conn(false, 1, [], 0)
    {
      open, nextSequenceId, received, discarded := false, 1, [], 0;
    }

    method Close()
      modifies this
      ensures Fields() == CloseLocked(old(Fields()))
    {
      received := [];
      open := false;
    }

    method Connect(success: bool)
      modifies this
      ensures Fields() == Connected(old(Fields()), success)
    {
      Close();
      if success {
        open := true;
      }
    }

    /** The first whole frame out of `received`. */
    method Take() returns (t: Take)
      modifies this
      ensures t == TakeFrame(old(received))
      ensures Fields() == old(Fields()).(received := if t.Took? then t.rest else old(received))
    {
      var header := DecodeHeader(received);
      if header.None? {
        return Incomplete;
      }
      var h := header.value;
      if h.dataLength > MAX_DATA_SIZE {
        return Oversize(h.dataLength);
      }
      var size := HEADER_SIZE + h.dataLength;
      if |received| < size {
        return Incomplete;
      }
      t := Took(Frame(h.kind, h.sequenceId, h.status, received[HEADER_SIZE..size]), received[size..]);
      received := received[size..];
    }

    /** The loop of request: take what is there, read when it is not enough, until the answer, the
        deadline or the end of the connection. */
    method AwaitReply(kind: byte, id: u16, arrivals: seq<ReadOutcome>) returns (outcome: Outcome)
      requires open
      modifies this
      ensures var e := Loop(old(received), kind, id, arrivals);
        && (e.outcome.Reply? ==> e.taken != [])
        && outcome == e.outcome
        && Fields() == Conn(e.open, old(nextSequenceId), e.received, old(discarded) + Discards(e))
    {
      ghost var whole := Loop(received, kind, id, arrivals);
      LoopReturnsTheMatch(received, kind, id, arrivals);
      assert arrivals[0..] == arrivals;
      var i := 0;
      while true
        invariant i <= |arrivals| && open && nextSequenceId == old(nextSequenceId)
        invariant SameEnd(whole, Loop(received, kind, id, arrivals[i..]),
                          discarded - old(discarded))
        decreases |arrivals| - i, |received|
      {
        var t := Take();
        match t
        case Oversize(_) =>
          Close();
          return Closed;
        case Took(frame, rest) =>
          if frame.sequenceId == id && frame.kind == kind {
            return Reply(frame);
          }
          discarded := discarded + 1;
        case Incomplete =>
          if i == |arrivals| {
            return Timeout;
          }
          if arrivals[i].ReadFailed? {
            Close();
            return Closed;
          }
          received := received + arrivals[i].bytes;
          assert arrivals[i..][1..] == arrivals[i + 1..];
          i := i + 1;
      }
    }

    method SendRequest(kind: byte, status: u16, data: seq<byte>,
                       write: WriteOutcome, arrivals: seq<ReadOutcome>)
      returns (outcome: Outcome)
      modifies this
      ensures var a := Request(old(Fields()), kind, status, data, write, arrivals);
        Fields() == a.conn && outcome == a.outcome
    {
      if !open {
        return Closed;
      }
      var id := nextSequenceId;
      nextSequenceId := (nextSequenceId + 1) % 0x1_0000;
      var encoded := EncodeFrame(Frame(kind, id, status, data));
      if encoded.Err? {
        return InvalidRequest;
      }
      if write != Sent {
        Close();
        return Closed;
      }
      outcome := AwaitReply(kind, id, arrivals);
    }
  }
}
