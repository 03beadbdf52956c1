/** Whole sessions with one drive: connects, requests, timeouts, late replies and reconnects. The
    requests run the connection's own loop; the drive answers each request at most once, in order. */
module SpoeSessions {
  import opened Bytes
  import opened SpoeFrames
  import opened SpoeConnections

  /** A reply and the number of the request it answers. Requests are numbered from 0 over the whole
      session, one number for each sequence id used. */
  datatype Tagged = Tagged(request: nat, frame: Frame)

  /** The sequence id of request n. */
  function IdOf(n: nat): u16 { (n + 1) % 0x1_0000 }

  datatype Session = Session(
    conn: Conn,
    kinds: seq<byte>,          // the type of every request so far
    first: nat,                // the first request of this TCP connection
    answered: nat,             // every request below it is answered or will not be
    unread: seq<Tagged>,       // replies sent by the drive and not yet taken, oldest first
    wire: seq<byte>,           // the bytes of them that are not yet read from the socket
    taken: nat, returned: nat) // frames taken and frames returned, over the whole session

  datatype Event =
    | Connect(success: bool)
    | Disconnect
    | Ask(kind: byte, status: u16, data: seq<byte>, write: WriteOutcome,
          answers: seq<Tagged>,            // what the drive sends while the request runs
          arrivals: seq<ReadOutcome>)      // what the reads of the request return

  function Start(): Session { Session(Conn(false, 1, [], 0), [], 0, 0, [], [], 0, 0) }

  function FramesOf(ts: seq<Tagged>): (fs: seq<Frame>)
    ensures |fs| == |ts|
    ensures forall k :: 0 <= k < |ts| ==> fs[k] == ts[k].frame
  {
    seq(|ts|, k requires 0 <= k < |ts| => ts[k].frame)
  }

  predicate AllFit(ts: seq<Tagged>) { forall k :: 0 <= k < |ts| ==> Fits(ts[k].frame) }

  function Stream(ts: seq<Tagged>): seq<byte>
    requires AllFit(ts)
  {
    EncodedAll(FramesOf(ts))
  }

  /** In order and at most once each. */
  predicate Increasing(ts: seq<Tagged>) {
    forall j, k :: 0 <= j < k < |ts| ==> ts[j].request < ts[k].request
  }

  /** Each reply carries the sequence id and the type of the request it answers, a request of this
      connection. */
  predicate Genuine(ts: seq<Tagged>, kinds: seq<byte>, first: nat) {
    forall k :: 0 <= k < |ts| ==>
      && first <= ts[k].request < |kinds|
      && ts[k].frame.sequenceId == IdOf(ts[k].request)
      && ts[k].frame.kind == kinds[ts[k].request]
      && Fits(ts[k].frame)
  }

  /** A request reaches the loop when the connection is open and the frame can be encoded and sent. */
  predicate Runs(s: Session, e: Event)
    requires e.Ask?
  {
    s.conn.open && |e.data| <= MAX_DATA_SIZE && e.write == Sent
  }

  /** What the drive and the network may do during a request. The drive answers requests it was sent,
      this one included, in order and at most once, however late. The reads return a beginning of what
      it sent. */
  predicate DriveBehaves(s: Session, e: Event)
    requires e.Ask?
  {
    var kinds := s.kinds + [e.kind];
    && Genuine(e.answers, kinds, s.first)
    && Increasing(e.answers)
    && (forall k :: 0 <= k < |e.answers| ==> s.answered <= e.answers[k].request)
    && Delivered(e.arrivals) <= s.wire + Stream(e.answers)
  }

  predicate Enabled(s: Session, e: Event) {
    e.Ask? && Runs(s, e) ==> DriveBehaves(s, e)
  }

  function AnswerOf(s: Session, e: Event): Answer
    requires e.Ask?
  {
    Request(s.conn, e.kind, e.status, e.data, e.write, e.arrivals)
  }

  /** The session when the loop of a request is over: the replies taken are off the front of what the
      drive sent, and the bytes of reads that were not made are still on the wire. A connection that
      was closed loses everything unread. */
  function Asked(s: Session, e: Event, a: Answer): Session
    requires e.Ask? && DriveBehaves(s, e)
  {
    var kinds := s.kinds + [e.kind];
    var all, sent := s.unread + e.answers, s.wire + Stream(e.answers);
    var r := s.(conn := a.conn, kinds := kinds, taken := s.taken + |a.taken|,
                returned := s.returned + if a.outcome.Reply? then 1 else 0);
    if a.conn.open then
      r.(unread := if |a.taken| <= |all| then all[|a.taken|..] else [],
         wire := Delivered(a.left) + sent[|Delivered(e.arrivals)|..],
         answered := AnsweredAfter(s, e))
    else
      Dropped(r)
  }

  function AnsweredAfter(s: Session, e: Event): nat
    requires e.Ask?
  {
    if e.answers == [] then s.answered else e.answers[|e.answers| - 1].request + 1
  }

  /** A TCP connection that is gone takes its unread replies with it. */
  function Dropped(s: Session): Session {
    s.(unread := [], wire := [], first := |s.kinds|, answered := |s.kinds|)
  }

  function Next(s: Session, e: Event): Session
    requires Enabled(s, e)
  {
    match e
    case Connect(success) => Dropped(s.(conn := Connected(s.conn, success)))
    case Disconnect => Dropped(s.(conn := CloseLocked(s.conn)))
    case Ask(kind, _, _, _, _, _) =>
      if !s.conn.open then s
      else if Runs(s, e) then Asked(s, e, AnswerOf(s, e))
      else
        var r := s.(conn := AnswerOf(s, e).conn, kinds := s.kinds + [kind]);
        if r.conn.open then r else Dropped(r)
  }

  predicate IsRun(s: Session, es: seq<Event>)
    decreases |es|
  {
    es == [] || (Enabled(s, es[0]) && IsRun(Next(s, es[0]), es[1..]))
  }

  function After(s: Session, es: seq<Event>): Session
    requires IsRun(s, es)
    decreases |es|
  {
    if es == [] then s else After(Next(s, es[0]), es[1..])
  }

  ghost predicate Reachable(s: Session) {
    exists es :: IsRun(Start(), es) && After(Start(), es) == s
  }

  // ------------------------------------------------------------------------------ the invariant

  predicate InOrder(ts: seq<Tagged>, kinds: seq<byte>, first: nat, answered: nat) {
    && first <= answered <= |kinds|
    && Genuine(ts, kinds, first)
    && Increasing(ts)
    && (forall k :: 0 <= k < |ts| ==> ts[k].request < answered)
  }

  predicate Inv(s: Session) {
    && s.conn.nextId == IdOf(|s.kinds|)
    && InOrder(s.unread, s.kinds, s.first, s.answered)
    && s.conn.received + s.wire == Stream(s.unread)
    && s.taken == s.returned + s.conn.discarded
  }

  /** Two requests have one sequence id exactly when they are a multiple of 65536 apart. */
  lemma IdsEqualExactlyAfterFullTurns(m: nat, n: nat)
    requires m <= n
    ensures IdOf(m) == IdOf(n) <==> (n - m) % 0x1_0000 == 0
  {
  }

  /** The loop takes what the drive sent: the first step of a stream of whole replies. */
  lemma TakeFollowsStream(received: seq<byte>, later: seq<byte>, replies: seq<Frame>)
    requires forall f :: f in replies ==> Fits(f)
    requires received + later == EncodedAll(replies)
    ensures !TakeFrame(received).Oversize?
    ensures TakeFrame(received).Took? ==>
      replies != [] && TakeFrame(received).frame == replies[0]
      && TakeFrame(received).rest + later == EncodedAll(replies[1..])
  {
    TakeMonotone(received, later);
    if replies != [] {
      TakeEncoded(replies[0], EncodedAll(replies[1..]));
    }
  }

  /** Along a stream of whole replies the loop takes exactly the first ones, and what it leaves in the
      buffer together with what was not read is the stream of the others. */
  lemma {:induction false} LoopFollowsStream(received: seq<byte>, kind: byte, id: u16,
                                            arrivals: seq<ReadOutcome>, later: seq<byte>,
                                            replies: seq<Frame>)
    requires forall f :: f in replies ==> Fits(f)
    requires received + Delivered(arrivals) + later == EncodedAll(replies)
    ensures var e := Loop(received, kind, id, arrivals);
      && e.taken <= replies
      && (e.open ==> e.received + Delivered(e.left) + later == EncodedAll(replies[|e.taken|..]))
    decreases |arrivals|, |received|
  {
    Associative(received, Delivered(arrivals), later);
    TakeFollowsStream(received, Delivered(arrivals) + later, replies);
    var t := TakeFrame(received);
    if t.Took? {
      Associative(t.rest, Delivered(arrivals), later);
      assert replies == [replies[0]] + replies[1..];
      if !Matches(t.frame, kind, id) {
        LoopFollowsStream(t.rest, kind, id, arrivals, later, replies[1..]);
        var e := Loop(t.rest, kind, id, arrivals);
        assert replies[1 + |e.taken|..] == replies[1..][|e.taken|..];
      }
    } else if arrivals != [] && arrivals[0].Chunk? {
      Associative(received, arrivals[0].bytes, Delivered(arrivals[1..]));
      LoopFollowsStream(received + arrivals[0].bytes, kind, id, arrivals[1..], later, replies);
    }
  }

  lemma {:induction false} EncodedAllOfTwo(fs: seq<Frame>, gs: seq<Frame>)
    requires forall f :: f in fs + gs ==> Fits(f)
    ensures (forall f :: f in fs ==> Fits(f)) && (forall g :: g in gs ==> Fits(g))
    ensures EncodedAll(fs + gs) == EncodedAll(fs) + EncodedAll(gs)
  {
    assert forall f :: f in fs ==> f in fs + gs;
    assert forall g :: g in gs ==> g in fs + gs;
    if fs == [] {
      assert fs + gs == gs;
    } else {
      assert (fs + gs)[1..] == fs[1..] + gs;
      EncodedAllOfTwo(fs[1..], gs);
      assert Encoded(fs[0]) + (EncodedAll(fs[1..]) + EncodedAll(gs))
          == Encoded(fs[0]) + EncodedAll(fs[1..]) + EncodedAll(gs);
    }
  }

  /** Everything the drive has sent when the loop of a request is over, taken or not. */
  function Outstanding(s: Session, e: Event): seq<Tagged>
    requires e.Ask?
  {
    s.unread + e.answers
  }

  /** Replies to requests below `middle` and then to requests from there on are in order together. */
  lemma JoinedInOrder(ts: seq<Tagged>, us: seq<Tagged>, kinds: seq<byte>, first: nat,
                      middle: nat, answered: nat)
    requires InOrder(ts, kinds, first, middle) && InOrder(us, kinds, first, answered)
    requires middle <= answered && forall k :: 0 <= k < |us| ==> middle <= us[k].request
    ensures InOrder(ts + us, kinds, first, answered)
  {
    var all := ts + us;
    forall j, k | 0 <= j < k < |all| ensures all[j].request < all[k].request {
      if j < |ts| <= k {
        assert all[k] == us[k - |ts|];
      }
    }
  }

  /** The replies before and during a request together are again in order and genuine. */
  lemma OutstandingInOrder(s: Session, e: Event)
    requires Inv(s) && e.Ask? && DriveBehaves(s, e)
    ensures InOrder(Outstanding(s, e), s.kinds + [e.kind], s.first, AnsweredAfter(s, e))
  {
    MoreRequests(s.unread, s.kinds, e.kind, s.first, s.answered);
    AnswersInOrder(s, e);
    JoinedInOrder(s.unread, e.answers, s.kinds + [e.kind], s.first, s.answered, AnsweredAfter(s, e));
  }

  lemma MoreRequests(ts: seq<Tagged>, kinds: seq<byte>, kind: byte, first: nat, answered: nat)
    requires InOrder(ts, kinds, first, answered)
    ensures InOrder(ts, kinds + [kind], first, answered)
  {
  }

  lemma AnswersInOrder(s: Session, e: Event)
    requires s.first <= s.answered <= |s.kinds| && e.Ask? && DriveBehaves(s, e)
    ensures s.answered <= AnsweredAfter(s, e)
    ensures InOrder(e.answers, s.kinds + [e.kind], s.first, AnsweredAfter(s, e))
  {
    if e.answers != [] {
      var last := e.answers[|e.answers| - 1];
      assert s.answered <= last.request < |s.kinds| + 1;
      assert forall k :: 0 <= k < |e.answers| ==> e.answers[k].request <= last.request;
    }
  }

  lemma StreamOfTwo(ts: seq<Tagged>, us: seq<Tagged>)
    requires AllFit(ts) && AllFit(us)
    ensures AllFit(ts + us) && Stream(ts + us) == Stream(ts) + Stream(us)
  {
    assert FramesOf(ts + us) == FramesOf(ts) + FramesOf(us);
    EncodedAllOfTwo(FramesOf(ts), FramesOf(us));
  }

  lemma Rejoined(r: seq<byte>, w: seq<byte>, a: seq<byte>, d: seq<byte>)
    requires d <= w + a
    ensures r + d + (w + a)[|d|..] == r + w + a
  {
    assert d + (w + a)[|d|..] == w + a;
    assert r + d + (w + a)[|d|..] == r + (d + (w + a)[|d|..]);
    assert r + (w + a) == r + w + a;
  }

  /** What the socket delivers in this request and later is the stream of the outstanding replies. */
  lemma OutstandingStream(s: Session, e: Event)
    requires Inv(s) && e.Ask? && DriveBehaves(s, e)
    ensures AllFit(Outstanding(s, e))
    ensures var later := (s.wire + Stream(e.answers))[|Delivered(e.arrivals)|..];
      s.conn.received + Delivered(e.arrivals) + later == Stream(Outstanding(s, e))
  {
    StreamOfTwo(s.unread, e.answers);
    Rejoined(s.conn.received, s.wire, Stream(e.answers), Delivered(e.arrivals));
  }

  lemma LoopTakesTheFirst(received: seq<byte>, kind: byte, id: u16, arrivals: seq<ReadOutcome>,
                          later: seq<byte>, all: seq<Tagged>)
    requires AllFit(all) && received + Delivered(arrivals) + later == Stream(all)
    ensures var l := Loop(received, kind, id, arrivals);
      && |l.taken| <= |all|
      && (forall k :: 0 <= k < |l.taken| ==> l.taken[k] == all[k].frame)
      && (l.open ==> l.received + (Delivered(l.left) + later) == Stream(all[|l.taken|..]))
  {
    LoopFollowsStream(received, kind, id, arrivals, later, FramesOf(all));
    var l := Loop(received, kind, id, arrivals);
    assert FramesOf(all)[|l.taken|..] == FramesOf(all[|l.taken|..]);
    Associative(l.received, Delivered(l.left), later);
  }

  /** The frames a request takes are the first outstanding ones, and the rest stays outstanding. */
  lemma AskTakesTheFirst(s: Session, e: Event)
    requires Inv(s) && e.Ask? && Runs(s, e) && DriveBehaves(s, e)
    ensures var a, all := AnswerOf(s, e), Outstanding(s, e);
      && |a.taken| <= |all| && AllFit(all)
      && (forall k :: 0 <= k < |a.taken| ==> a.taken[k] == all[k].frame)
      && (a.conn.open ==>
            a.conn.received + (Delivered(a.left) + (s.wire + Stream(e.answers))[|Delivered(e.arrivals)|..])
            == Stream(all[|a.taken|..]))
  {
    OutstandingStream(s, e);
    var later := (s.wire + Stream(e.answers))[|Delivered(e.arrivals)|..];
    LoopTakesTheFirst(s.conn.received, e.kind, s.conn.nextId, e.arrivals, later, Outstanding(s, e));
  }

  /** A later part of a list in order is in order. */
  lemma PartInOrder(ts: seq<Tagged>, n: nat, kinds: seq<byte>, first: nat, answered: nat)
    requires n <= |ts| && InOrder(ts, kinds, first, answered)
    ensures InOrder(ts[n..], kinds, first, answered)
  {
  }

  /** What a request's answer says about the frames: they are the first outstanding ones, the bytes of
      the others are kept or still on the wire, and the counts are right. */
  predicate Follows(s: Session, e: Event, a: Answer)
    requires e.Ask? && DriveBehaves(s, e) && AllFit(Outstanding(s, e))
  {
    var all := Outstanding(s, e);
    && |a.taken| <= |all|
    && (forall k :: 0 <= k < |a.taken| ==> a.taken[k] == all[k].frame)
    && a.conn.nextId == NextId(s.conn.nextId)
    && a.conn.discarded + (if a.outcome.Reply? then 1 else 0) == s.conn.discarded + |a.taken|
    && (if a.conn.open then
          a.conn.received + (Delivered(a.left) + (s.wire + Stream(e.answers))[|Delivered(e.arrivals)|..])
          == Stream(all[|a.taken|..])
        else a.conn.received == [])
  }

  lemma AnswerFollows(s: Session, e: Event)
    requires Inv(s) && e.Ask? && Runs(s, e) && DriveBehaves(s, e)
    ensures AllFit(Outstanding(s, e)) && Follows(s, e, AnswerOf(s, e))
  {
    AskTakesTheFirst(s, e);
    RequestCounts(s.conn, e.kind, e.status, e.data, e.write, e.arrivals);
  }

  lemma NextIdOf(n: nat)
    ensures NextId(IdOf(n)) == IdOf(n + 1)
  {
  }

  /** A session without an unread reply. */
  lemma DroppedKeeps(s: Session)
    requires s.conn.nextId == IdOf(|s.kinds|) && s.taken == s.returned + s.conn.discarded
    requires s.conn.received == []
    ensures Inv(Dropped(s))
  {
  }

  lemma AskKeeps(s: Session, e: Event, a: Answer)
    requires Inv(s) && e.Ask? && DriveBehaves(s, e) && AllFit(Outstanding(s, e)) && Follows(s, e, a)
    ensures Inv(Asked(s, e, a))
  {
    NextIdOf(|s.kinds|);
    if a.conn.open {
      OutstandingInOrder(s, e);
      PartInOrder(Outstanding(s, e), |a.taken|, s.kinds + [e.kind], s.first, AnsweredAfter(s, e));
    } else {
      DroppedKeeps(s.(conn := a.conn, kinds := s.kinds + [e.kind], taken := s.taken + |a.taken|,
                      returned := s.returned + if a.outcome.Reply? then 1 else 0));
    }
  }

  lemma StepKeeps(s: Session, e: Event)
    requires Inv(s) && Enabled(s, e)
    ensures Inv(Next(s, e))
  {
    NextIdOf(|s.kinds|);
    match e
    case Connect(success) => DroppedKeeps(s.(conn := Connected(s.conn, success)));
    case Disconnect => DroppedKeeps(s.(conn := CloseLocked(s.conn)));
    case Ask(kind, _, _, _, _, _) =>
      if Runs(s, e) {
        AnswerFollows(s, e);
        AskKeeps(s, e, AnswerOf(s, e));
      } else if s.conn.open && !AnswerOf(s, e).conn.open {
        DroppedKeeps(s.(conn := AnswerOf(s, e).conn, kinds := s.kinds + [kind]));
      }
  }

  lemma {:induction false} RunKeeps(s: Session, es: seq<Event>)
    requires Inv(s) && IsRun(s, es)
    ensures Inv(After(s, es))
    decreases |es|
  {
    if es == [] {
    } else {
      StepKeeps(s, es[0]);
      RunKeeps(Next(s, es[0]), es[1..]);
    }
  }

  lemma ReachableInv(s: Session)
    requires Reachable(s)
    ensures Inv(s)
  {
    var es :| IsRun(Start(), es) && After(Start(), es) == s;
    RunKeeps(Start(), es);
  }

  // ------------------------------------------------------------------------------ the theorems

  /** The frame taken at position k is the k-th outstanding reply and answers a request of this TCP
      connection. It is the one returned exactly when it carries the type of request n and answers it, or
      one that is a multiple of 65536 requests earlier. */
  predicate ReturnedByNumber(a: Answer, all: seq<Tagged>, k: nat, first: nat, n: nat, kind: byte)
    requires k < |a.taken|
  {
    && k < |all| && a.taken[k] == all[k].frame
    && first <= all[k].request <= n
    && (a.outcome.Reply? && k == |a.taken| - 1
        <==> all[k].frame.kind == kind && (n - all[k].request) % 0x1_0000 == 0)
  }

  lemma NumberDecides(s: Session, e: Event, a: Answer, k: nat)
    requires Inv(s) && e.Ask? && DriveBehaves(s, e) && k < |a.taken|
    requires AllFit(Outstanding(s, e)) && Follows(s, e, a)
    requires Matches(a.taken[k], e.kind, s.conn.nextId) <==> a.outcome.Reply? && k == |a.taken| - 1
    ensures ReturnedByNumber(a, Outstanding(s, e), k, s.first, |s.kinds|, e.kind)
  {
    OutstandingInOrder(s, e);
    IdsEqualExactlyAfterFullTurns(Outstanding(s, e)[k].request, |s.kinds|);
  }

  /** In every session, however late the replies, a request returns the first outstanding reply of its
      type whose request is a multiple of 65536 requests back, its own included, and nothing else. */
  lemma ReturnsExactlyByNumber(s: Session, e: Event)
    requires Reachable(s) && e.Ask? && Enabled(s, e)
    ensures var a := AnswerOf(s, e);
      && (a.outcome.Reply? ==> a.taken != [] && a.outcome.frame == a.taken[|a.taken| - 1])
      && forall k | 0 <= k < |a.taken| ::
           ReturnedByNumber(a, Outstanding(s, e), k, s.first, |s.kinds|, e.kind)
  {
    ReachableInv(s);
    RequestCounts(s.conn, e.kind, e.status, e.data, e.write, e.arrivals);
    RequestReturnsTheMatch(s.conn, e.kind, e.status, e.data, e.write, e.arrivals);
    if Runs(s, e) {
      AnswerFollows(s, e);
      var a := AnswerOf(s, e);
      forall k | 0 <= k < |a.taken|
        ensures ReturnedByNumber(a, Outstanding(s, e), k, s.first, |s.kinds|, e.kind)
      {
        NumberDecides(s, e, a, k);
      }
    }
  }

  /** It answers request n exactly when it is the one returned. */
  predicate OwnReplyOnly(a: Answer, all: seq<Tagged>, k: nat, first: nat, n: nat)
    requires k < |a.taken|
  {
    && k < |all| && a.taken[k] == all[k].frame
    && first <= all[k].request <= n
    && (all[k].request == n <==> a.outcome.Reply? && k == |a.taken| - 1)
  }

  /** No outstanding reply is 65536 or more requests late. */
  predicate NoneTooLate(all: seq<Tagged>, n: nat) {
    forall k | 0 <= k < |all| :: n - all[k].request < 0x1_0000
  }

  lemma OwnReplyIsReturned(s: Session, e: Event, a: Answer, k: nat)
    requires Inv(s) && e.Ask? && DriveBehaves(s, e) && k < |a.taken|
    requires NoneTooLate(Outstanding(s, e), |s.kinds|)
    requires ReturnedByNumber(a, Outstanding(s, e), k, s.first, |s.kinds|, e.kind)
    ensures OwnReplyOnly(a, Outstanding(s, e), k, s.first, |s.kinds|)
  {
    OutstandingInOrder(s, e);
    var t, kinds := Outstanding(s, e)[k], s.kinds + [e.kind];
    assert t.request == |s.kinds| ==> t.frame.kind == kinds[|s.kinds|] == e.kind;
  }

  /** No cross-talk. As long as no outstanding reply is 65536 or more requests late, a request returns
      only the reply to that very request, and every other frame it takes answers an earlier request of
      the same TCP connection: its own reply is never discarded, and a reply from before a reconnect is
      never seen. */
  lemma NoCrossTalk(s: Session, e: Event)
    requires Reachable(s) && e.Ask? && Enabled(s, e)
    requires NoneTooLate(Outstanding(s, e), |s.kinds|)
    ensures var a := AnswerOf(s, e);
      && (a.outcome.Reply? ==> a.taken != [] && a.outcome.frame == a.taken[|a.taken| - 1])
      && forall k | 0 <= k < |a.taken| :: OwnReplyOnly(a, Outstanding(s, e), k, s.first, |s.kinds|)
  {
    ReachableInv(s);
    ReturnsExactlyByNumber(s, e);
    var a := AnswerOf(s, e);
    forall k | 0 <= k < |a.taken|
      ensures OwnReplyOnly(a, Outstanding(s, e), k, s.first, |s.kinds|)
    {
      TakenOnlyWhenRun(s, e);
      OwnReplyIsReturned(s, e, a, k);
    }
  }

  /** A request that is not sent takes no frame. */
  lemma TakenOnlyWhenRun(s: Session, e: Event)
    requires e.Ask?
    ensures AnswerOf(s, e).taken != [] ==> Runs(s, e)
  {
  }

  /** Every frame ever taken was returned or counted as discarded. */
  lemma TakenIsReturnedOrDiscarded(s: Session)
    requires Reachable(s)
    ensures s.taken == s.returned + s.conn.discarded
  {
    ReachableInv(s);
  }

  /** The bound of 65536 is exact: a leftover reply to request m, found first by a later request n of
      the same type, is taken for its answer if and only if n - m is a multiple of 65536. */
  lemma LeftoverIsMistakenExactlyAfterFullTurns(m: nat, n: nat, f: Frame, rest: seq<byte>,
                                                arrivals: seq<ReadOutcome>)
    requires m < n && Fits(f) && f.sequenceId == IdOf(m)
    ensures var e := Loop(Encoded(f) + rest, f.kind, IdOf(n), arrivals);
      e.taken != [] && e.taken[0] == f
      && (e.outcome == Reply(f) && |e.taken| == 1 <==> (n - m) % 0x1_0000 == 0)
  {
    TakeEncoded(f, rest);
    IdsEqualExactlyAfterFullTurns(m, n);
    LoopReturnsTheMatch(rest, f.kind, IdOf(n), arrivals);
    assert Matches(f, f.kind, IdOf(n)) <==> IdOf(m) == IdOf(n);
  }

  lemma {:induction false} RunGoesOn(s: Session, es: seq<Event>, e: Event)
    requires IsRun(s, es) && Enabled(After(s, es), e)
    ensures IsRun(s, es + [e]) && After(s, es + [e]) == Next(After(s, es), e)
    decreases |es|
  {
    if es == [] {
      assert es + [e] == [e];
    } else {
      assert (es + [e])[1..] == es[1..] + [e];
      RunGoesOn(Next(s, es[0]), es[1..], e);
    }
  }

  lemma ReachesNext(s: Session, e: Event)
    requires Reachable(s) && Enabled(s, e)
    ensures Reachable(Next(s, e))
  {
    var es :| IsRun(Start(), es) && After(Start(), es) == s;
    RunGoesOn(Start(), es, e);
  }

  /** A request the drive does not answer in time. */
  function Silent(kind: byte): Event { Ask(kind, 0, [], Sent, [], []) }

  /** The session after one connect and `n` such requests. */
  function Waiting(n: nat, kind: byte): Session {
    Session(Conn(true, IdOf(n), [], 0), seq(n, _ => kind), 0, 0, [], [], 0, 0)
  }

  lemma SilentRequest(n: nat, kind: byte)
    ensures Enabled(Waiting(n, kind), Silent(kind))
    ensures Next(Waiting(n, kind), Silent(kind)) == Waiting(n + 1, kind)
  {
    NextIdOf(n);
    var s, e := Waiting(n, kind), Silent(kind);
    assert s.kinds + [kind] == seq(n + 1, _ => kind);
    assert AnswerOf(s, e) == Answer(Conn(true, IdOf(n + 1), [], 0), Timeout, [], []);
  }

  lemma {:induction false} WaitingIsReached(n: nat, kind: byte)
    ensures Reachable(Waiting(n, kind))
  {
    if n == 0 {
      assert IsRun(Start(), []) && After(Start(), []) == Start();
      ReachesNext(Start(), Connect(true));
      assert Waiting(0, kind).kinds == [];
    } else {
      WaitingIsReached(n - 1, kind);
      SilentRequest(n - 1, kind);
      ReachesNext(Waiting(n - 1, kind), Silent(kind));
    }
  }

  /** The drive answers request m during the next request, and one read returns the whole reply. */
  function LateReply(m: nat, f: Frame): Event
    requires Fits(f)
  {
    Ask(f.kind, 0, [], Sent, [Tagged(m, f)], [Chunk(Encoded(f))])
  }

  lemma StreamOfOne(t: Tagged)
    requires Fits(t.frame)
    ensures AllFit([t]) && Stream([t]) == Encoded(t.frame)
  {
    var fs := FramesOf([t]);
    assert fs[1..] == [] && fs[0] == t.frame;
    assert EncodedAll(fs) == Encoded(fs[0]) + [];
  }

  lemma LateReplyMayCome(m: nat, n: nat, f: Frame)
    requires m <= n && Fits(f) && f.sequenceId == IdOf(m)
    ensures Enabled(Waiting(n, f.kind), LateReply(m, f))
  {
    var s, e := Waiting(n, f.kind), LateReply(m, f);
    assert forall k | 0 <= k <= n :: (s.kinds + [f.kind])[k] == f.kind;
    StreamOfOne(Tagged(m, f));
    assert Delivered(e.arrivals) == Encoded(f) + Delivered([]) == Encoded(f);
    assert s.wire + Stream(e.answers) == Stream(e.answers);
  }

  lemma LoopReadsOne(f: Frame, id: u16)
    requires Fits(f)
    ensures Loop([], f.kind, id, [Chunk(Encoded(f))]).outcome == if f.sequenceId == id then Reply(f) else Timeout
  {
    var arrivals := [Chunk(Encoded(f))];
    assert [] + Encoded(f) == Encoded(f) == Encoded(f) + [];
    assert arrivals[1..] == [];
    TakeEncoded(f, []);
    assert Loop([], f.kind, id, arrivals) == Loop(Encoded(f), f.kind, id, []);
  }

  /** And sessions get there: for every m <= n there is one in which request n takes the reply to
      request m, which was n - m requests late, and it is returned as the answer exactly when n - m is a
      multiple of 65536. */
  lemma LateReplyIsReturnedExactlyAfterFullTurns(m: nat, n: nat, f: Frame)
    requires m <= n && Fits(f) && f.sequenceId == IdOf(m)
    ensures var s, e := Waiting(n, f.kind), LateReply(m, f);
      && Reachable(s) && Enabled(s, e) && |s.kinds| == n
      && (AnswerOf(s, e).outcome == Reply(f) <==> (n - m) % 0x1_0000 == 0)
  {
    WaitingIsReached(n, f.kind);
    LateReplyMayCome(m, n, f);
    LoopReadsOne(f, IdOf(n));
    IdsEqualExactlyAfterFullTurns(m, n);
  }
}
