/** A reply that arrives is returned: what a request returns, told by the bytes that reached it and not
    by the frames its loop happened to take. */
module SpoeReplies {
  import opened Bytes
  import opened SpoeFrames
  import opened SpoeConnections
  import opened SpoeSessions

  // ------------------------------------------------------------------------------- one request

  predicate SomeReadFails(arrivals: seq<ReadOutcome>) { exists k | 0 <= k < |arrivals| :: arrivals[k].ReadFailed? }

  /** Where the first frame with this id and type stands, or the number of frames. */
  function Wanted(fs: seq<Frame>, kind: byte, id: u16): (n: nat)
    ensures n <= |fs|
    ensures n < |fs| ==> fs[n].sequenceId == id && fs[n].kind == kind
    ensures forall k | 0 <= k < n :: !(fs[k].sequenceId == id && fs[k].kind == kind)
  {
    if fs == [] || (fs[0].sequenceId == id && fs[0].kind == kind) then 0 else 1 + Wanted(fs[1..], kind, id)
  }

  /** What the loop comes to when `d` is everything in the bytes it gets: the first wanted frame, or else
      the end of the connection or of the time. */
  function Verdict(d: Drained, fails: bool, kind: byte, id: u16): Outcome {
    var n := Wanted(d.frames, kind, id);
    if n < |d.frames| then Reply(d.frames[n])
    else if d.refused || fails then Closed
    else Timeout
  }

  /** The loop ends as the bytes say, after the wanted frame or all of them; a timeout keeps what is
      behind the last whole frame. */
  predicate EndsBy(e: LoopEnd, d: Drained, fails: bool, kind: byte, id: u16) {
    && e.outcome == Verdict(d, fails, kind, id)
    && e.taken == d.frames[..Min(Wanted(d.frames, kind, id) + 1, |d.frames|)]
    && (e.open <==> !e.outcome.Closed?)
    && (e.outcome.Timeout? ==> e.received == d.rest)
  }

  lemma WantedLater(f: Frame, fs: seq<Frame>, kind: byte, id: u16)
    requires !Matches(f, kind, id)
    ensures Wanted([f] + fs, kind, id) == 1 + Wanted(fs, kind, id)
  {
    assert ([f] + fs)[1..] == fs;
  }

  lemma SkipsOne(f: Frame, e: LoopEnd, d: Drained, fails: bool, kind: byte, id: u16)
    requires !Matches(f, kind, id) && EndsBy(e, d, fails, kind, id)
    ensures EndsBy(e.(taken := [f] + e.taken), Before([f], d), fails, kind, id)
  {
    WantedLater(f, d.frames, kind, id);
    var n := Wanted(d.frames, kind, id);
    var m := Min(n + 1, |d.frames|);
    assert ([f] + d.frames)[..m + 1] == [f] + d.frames[..m];
    if n < |d.frames| {
      assert ([f] + d.frames)[n + 1] == d.frames[n];
    }
  }

  lemma FailsLater(arrivals: seq<ReadOutcome>)
    requires arrivals != [] && arrivals[0].Chunk?
    ensures SomeReadFails(arrivals) <==> SomeReadFails(arrivals[1..])
  {
    var rest := arrivals[1..];
    if SomeReadFails(arrivals) {
      var k :| 0 <= k < |arrivals| && arrivals[k].ReadFailed?;
      assert rest[k - 1].ReadFailed?;
    }
    if SomeReadFails(rest) {
      var k :| 0 <= k < |rest| && rest[k].ReadFailed?;
      assert arrivals[k + 1].ReadFailed?;
    }
  }

  lemma DrainOfTaken(received: seq<byte>, more: seq<byte>)
    requires TakeFrame(received).Took?
    ensures Drain(received + more) == Before([TakeFrame(received).frame], Drain(TakeFrame(received).rest + more))
  {
    TakeMonotone(received, more);
  }

  lemma FoundAtOnce(f: Frame, d: Drained, fails: bool, kind: byte, id: u16, e: LoopEnd)
    requires Matches(f, kind, id) && e.outcome == Reply(f) && e.taken == [f] && e.open
    ensures EndsBy(e, Before([f], d), fails, kind, id)
  {
    assert ([f] + d.frames)[..1] == [f];
  }

  /** However the bytes are cut into reads: the outcome is the first frame with the request's id and type
      among everything delivered. Without one the connection is closed exactly when a header claimed too
      much or a read failed, and otherwise the time is up. */
  lemma {:induction false} LoopReturnsWhatArrives(received: seq<byte>, kind: byte, id: u16,
                                                 arrivals: seq<ReadOutcome>)
    ensures EndsBy(Loop(received, kind, id, arrivals), Drain(received + Delivered(arrivals)),
                   SomeReadFails(arrivals), kind, id)
    decreases |arrivals|, |received|
  {
    var more := Delivered(arrivals);
    match TakeFrame(received)
    case Oversize(_) =>
      TakeMonotone(received, more);
    case Took(f, rest) =>
      DrainOfTaken(received, more);
      if Matches(f, kind, id) {
        FoundAtOnce(f, Drain(rest + more), SomeReadFails(arrivals), kind, id, Loop(received, kind, id, arrivals));
      } else {
        LoopReturnsWhatArrives(rest, kind, id, arrivals);
        SkipsOne(f, Loop(rest, kind, id, arrivals), Drain(rest + more), SomeReadFails(arrivals), kind, id);
      }
    case Incomplete =>
      if arrivals == [] || arrivals[0].ReadFailed? {
        assert received + more == received;
        assert arrivals != [] ==> SomeReadFails(arrivals);
      } else {
        Associative(received, arrivals[0].bytes, Delivered(arrivals[1..]));
        FailsLater(arrivals);
        LoopReturnsWhatArrives(received + arrivals[0].bytes, kind, id, arrivals[1..]);
      }
  }

  /** request in full: it is refused on a closed connection and for too much data, it closes the
      connection when it cannot be sent, and otherwise it returns what arrives for it. */
  lemma RequestReturnsWhatArrives(c: Conn, kind: byte, status: u16, data: seq<byte>,
                                  write: WriteOutcome, arrivals: seq<ReadOutcome>)
    ensures var a := Request(c, kind, status, data, write, arrivals);
      a.outcome == if !c.open then Closed
                   else if |data| > 512 then InvalidRequest
                   else if write != Sent then Closed
                   else Verdict(Drain(c.received + Delivered(arrivals)), SomeReadFails(arrivals), kind, c.nextId)
    ensures var a := Request(c, kind, status, data, write, arrivals);
      a.conn.open <==> c.open && !a.outcome.Closed?
  {
    LoopReturnsWhatArrives(c.received, kind, c.nextId, arrivals);
  }

  // ----------------------------------------------------------------------------- whole sessions

  /** The part `b` of a stream of frames drains to exactly the frames that end within it. */
  predicate DrainsWithin(d: Drained, fs: seq<Frame>, n: nat)
    requires forall f :: f in fs ==> Fits(f)
  {
    && d.frames <= fs && !d.refused
    && forall k | 0 <= k <= |fs| :: k <= |d.frames| <==> EndOf(fs, k) <= n
  }

  /** Where the first k frames end in the stream. */
  function EndOf(fs: seq<Frame>, k: nat): nat
    requires k <= |fs|
  {
    if k == 0 then 0 else 7 + |fs[0].data| + EndOf(fs[1..], k - 1)
  }

  lemma WithinOneMore(f: Frame, d: Drained, fs: seq<Frame>, n: nat)
    requires Fits(f) && (forall g :: g in fs ==> Fits(g)) && DrainsWithin(d, fs, n)
    ensures forall g :: g in [f] + fs ==> Fits(g)
    ensures DrainsWithin(Before([f], d), [f] + fs, n + 7 + |f.data|)
  {
    var all, e := [f] + fs, Before([f], d);
    assert all[1..] == fs;
    assert e.frames == [f] + d.frames;
    forall k | 0 <= k <= |all| ensures k <= |e.frames| <==> EndOf(all, k) <= n + 7 + |f.data| {
      if k > 0 {
        assert EndOf(all, k) == 7 + |f.data| + EndOf(fs, k - 1);
        assert k - 1 <= |d.frames| <==> EndOf(fs, k - 1) <= n;
      }
    }
  }

  lemma NothingWithin(fs: seq<Frame>, b: seq<byte>)
    requires forall f :: f in fs ==> Fits(f)
    requires fs != [] ==> |b| < 7 + |fs[0].data|
    requires Drain(b) == Drained([], b, false)
    ensures DrainsWithin(Drain(b), fs, |b|)
  {
  }

  lemma {:induction false} PartDrains(fs: seq<Frame>, b: seq<byte>)
    requires (forall f :: f in fs ==> Fits(f)) && b <= EncodedAll(fs)
    ensures DrainsWithin(Drain(b), fs, |b|)
  {
    if fs == [] {
      NothingWithin(fs, b);
    } else {
      var first, rest := Encoded(fs[0]), EncodedAll(fs[1..]);
      if |b| < |first| {
        assert b == (first + rest)[..|b|] == first[..|b|];
        PartIsIncomplete(fs[0], |b|);
        NothingWithin(fs, b);
      } else {
        var c := b[|first|..];
        assert b[..|first|] == first && b == first + c;
        assert c == (first + rest)[|first|..|b|] == rest[..|c|];
        PartDrains(fs[1..], c);
        DrainOne(fs[0], c);
        WithinOneMore(fs[0], Drain(c), fs[1..], |c|);
        assert fs == [fs[0]] + fs[1..];
      }
    }
  }

  /** The bytes that have reached a request, kept or read by it, are a part of what the drive sent. */
  lemma BytesOfARequest(s: Session, e: Event)
    requires Reachable(s) && e.Ask? && Runs(s, e) && Enabled(s, e)
    ensures AllFit(Outstanding(s, e))
    ensures DrainsWithin(Drain(s.conn.received + Delivered(e.arrivals)), FramesOf(Outstanding(s, e)),
                         |s.conn.received| + |Delivered(e.arrivals)|)
  {
    ReachableInv(s);
    OutstandingInOrder(s, e);
    OutstandingStream(s, e);
    PartDrains(FramesOf(Outstanding(s, e)), s.conn.received + Delivered(e.arrivals));
  }

  /** The reply to request n itself stands at position k of what the drive sent, and has arrived whole. */
  predicate OwnArrived(s: Session, e: Event, k: nat)
    requires e.Ask?
  {
    var all := Outstanding(s, e);
    && k < |all| && all[k].request == |s.kinds|
    && EndOf(FramesOf(all), k + 1) <= |s.conn.received| + |Delivered(e.arrivals)|
  }

  lemma OwnIsWanted(s: Session, e: Event, k: nat)
    requires Inv(s) && e.Ask? && DriveBehaves(s, e) && k < |Outstanding(s, e)|
    requires NoneTooLate(Outstanding(s, e), |s.kinds|)
    ensures Matches(Outstanding(s, e)[k].frame, e.kind, s.conn.nextId)
       <==> Outstanding(s, e)[k].request == |s.kinds|
  {
    OutstandingInOrder(s, e);
    IdsEqualExactlyAfterFullTurns(Outstanding(s, e)[k].request, |s.kinds|);
    assert (s.kinds + [e.kind])[|s.kinds|] == e.kind;
  }

  lemma OnlyOneOwn(s: Session, e: Event, j: nat, k: nat)
    requires Inv(s) && e.Ask? && DriveBehaves(s, e)
    requires j < |Outstanding(s, e)| && k < |Outstanding(s, e)|
    requires Outstanding(s, e)[j].request == Outstanding(s, e)[k].request
    ensures j == k
  {
    OutstandingInOrder(s, e);
  }

  /** A request whose own reply arrives whole returns it, behind whatever late replies and however it is
      cut into reads; and without it no reply is returned: the connection is closed when a read failed
      and the request times out otherwise. As before, no outstanding reply may be 65536 requests late. */
  lemma OwnReplyIsReturnedExactly(s: Session, e: Event, k: nat)
    requires Reachable(s) && e.Ask? && Runs(s, e) && Enabled(s, e)
    requires NoneTooLate(Outstanding(s, e), |s.kinds|)
    ensures OwnArrived(s, e, k) ==> AnswerOf(s, e).outcome == Reply(Outstanding(s, e)[k].frame)
    ensures (forall j: nat :: !OwnArrived(s, e, j)) ==>
              AnswerOf(s, e).outcome == if SomeReadFails(e.arrivals) then Closed else Timeout
  {
    ReachableInv(s);
    BytesOfARequest(s, e);
    RequestReturnsWhatArrives(s.conn, e.kind, e.status, e.data, e.write, e.arrivals);
    var all, d := Outstanding(s, e), Drain(s.conn.received + Delivered(e.arrivals));
    var n := Wanted(d.frames, e.kind, s.conn.nextId);
    if OwnArrived(s, e, k) {
      OwnIsWanted(s, e, k);
      assert k + 1 <= |d.frames| && d.frames[k] == all[k].frame;
      OwnIsWanted(s, e, n);
      OnlyOneOwn(s, e, n, k);
    }
    if n < |d.frames| {
      OwnIsWanted(s, e, n);
      assert OwnArrived(s, e, n);
    }
  }
}
