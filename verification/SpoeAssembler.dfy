/** Cutting the input bytes of successive replies into frames, and the drive they come from. */
module SpoeAssemblers {
  import opened Bytes
  import opened Remainders

  /** kInputPopLimit. */
  const POP_LIMIT: nat := 500

  /** The assembler's fields. */
  datatype Assembler = Assembler(frameBytes: nat, partial: seq<byte>, framingLosses: nat)

  /** The bytes at the front that do not belong to a whole frame once the reply ended on one. */
  function Stale(a: Assembler, reply: seq<byte>): nat
    requires a.frameBytes > 0
  {
    if |reply| < POP_LIMIT then Rem(|a.partial| + |reply|, a.frameBytes) else 0
  }

  /** The whole frames at the front of the joined bytes, and the part that is kept. */
  function Cut(joined: seq<byte>, frameBytes: nat): (r: (seq<byte>, seq<byte>))
    requires frameBytes > 0
    ensures r.0 + r.1 == joined
    ensures Rem(|r.0|, frameBytes) == 0 && |r.1| == Rem(|joined|, frameBytes)
  {
    RemRest(|joined|, frameBytes);
    var whole := |joined| - Rem(|joined|, frameBytes);
    (joined[..whole], joined[whole..])
  }

  /** One call of add: the assembler afterwards and the frames returned, joined. */
  function Add(a: Assembler, reply: seq<byte>): (r: (Assembler, seq<byte>)) {
    if a.frameBytes == 0 then (a, []) else
      var stale := Stale(a, reply);
      var (frames, kept) := Cut((a.partial + reply)[stale..], a.frameBytes);
      (Assembler(a.frameBytes, kept, a.framingLosses + if stale != 0 then 1 else 0), frames)
  }

  class SpoeFrameAssembler {
    var frameBytes: nat
    var partial: seq<byte>
    var framingLosses: nat

    ghost function Fields(): Assembler
      reads this
    {
      Assembler(frameBytes, partial, framingLosses)
    }

    constructor (frameBytes: nat)
      ensures Fields() == Assembler(frameBytes, [], 0)
    {
      this.frameBytes, partial, framingLosses := frameBytes, [], 0;
    }

    method AddReply(reply: seq<byte>) returns (frames: seq<byte>)
      modifies this
      ensures (Fields(), frames) == Add(old(Fields()), reply)
      ensures frameBytes == 0 ==> frames == [] && Fields() == old(Fields())
    {
      if frameBytes == 0 {
        return [];
      }
      partial := partial + reply;
      RemIsMod(|partial|, frameBytes);
      if |reply| < POP_LIMIT {
        var stale := |partial| % frameBytes;
        if stale != 0 {
          partial := partial[stale..];
          framingLosses := framingLosses + 1;
        }
      }
      RemIsMod(|partial|, frameBytes);
      var whole := |partial| - |partial| % frameBytes;
      frames := partial[..whole];
      partial := partial[whole..];
    }
  }

  // --------------------------------------------------------------------------------- the drive

  datatype Event =
    | Produce(frame: seq<byte>)  // the drive buffers one more frame
    | Reply                      // one reply carries up to POP_LIMIT buffered bytes to the assembler
    | Flush                      // the drive empties its buffer outright

  /** The drive, the assembler and what passed between them since the drive's last flush. */
  datatype System = System(
    assembler: Assembler,
    buffer: seq<byte>,   // what the drive has not handed out yet
    handed: seq<byte>,   // the bytes handed out since the last flush
    carried: seq<byte>,  // the kept part left over from before that flush, until it is dropped
    frames: seq<byte>)   // what add returned since the last flush, joined

  /** Right after a flush, or at the very start, with any kept part. */
  function Fresh(a: Assembler): System { System(a, [], [], a.partial, []) }

  function Handed(s: System): seq<byte> { s.buffer[..Min(POP_LIMIT, |s.buffer|)] }

  predicate Short(s: System) { |Handed(s)| < POP_LIMIT }

  predicate Enabled(s: System, e: Event) {
    e.Produce? ==> |e.frame| == s.assembler.frameBytes
  }

  function Next(s: System, e: Event): System
    requires Enabled(s, e)
  {
    match e
    case Produce(frame) => s.(buffer := s.buffer + frame)
    case Reply =>
      var reply := Handed(s);
      var (a, frames) := Add(s.assembler, reply);
      System(a, s.buffer[|reply|..], s.handed + reply, if Short(s) then [] else s.carried,
             s.frames + frames)
    case Flush => Fresh(s.assembler)
  }

  predicate IsRun(s: System, es: seq<Event>)
    decreases |es|
  {
    es == [] || (Enabled(s, es[0]) && IsRun(Next(s, es[0]), es[1..]))
  }

  function After(s: System, es: seq<Event>): System
    requires IsRun(s, es)
    decreases |es|
  {
    if es == [] then s else After(Next(s, es[0]), es[1..])
  }

  // ------------------------------------------------------------------------------ the invariant

  /** n bytes are a whole number of frames. */
  predicate Whole(n: nat, frameBytes: nat)
    requires frameBytes > 0
  {
    Rem(n, frameBytes) == 0
  }

  /** x is the end of the stream. */
  predicate IsEnd(x: seq<byte>, stream: seq<byte>) {
    |x| <= |stream| && x == stream[|stream| - |x|..]
  }

  /** What was handed out and what is buffered start and end on frame boundaries, and the kept part
      is the end of what was handed out after the carried bytes, cut at multiples of the frame size
      from the carried bytes on. */
  predicate Inv(s: System) {
    var f := s.assembler.frameBytes;
    var stream := s.carried + s.handed;
    && f > 0
    && |s.assembler.partial| < f && |s.carried| < f
    && Whole(|s.handed| + |s.buffer|, f)
    && IsEnd(s.assembler.partial, stream)
    && Whole(|stream| - |s.assembler.partial|, f)
  }

  /** The lengths of a short reply: `c` carried, `h` handed out before, `p` kept, `r` in the reply. */
  lemma ShortLengths(c: nat, h: nat, p: nat, r: nat, f: nat)
    requires c < f && p <= c + h && Whole(h + r, f) && Whole(c + h - p, f)
    ensures Rem(p + r, f) == c && c <= p + r && Whole(p + r - c, f)
  {
    RemAdd(c, h + r, f);
    assert c + (h + r) == (p + r) + (c + h - p);
    RemAdd(p + r, c + h - p, f);
    RemRest(p + r, f);
  }

  /** The kept part and the reply together are the end of the longer stream. */
  lemma EndOfStream(c: seq<byte>, h: seq<byte>, p: seq<byte>, r: seq<byte>)
    requires IsEnd(p, c + h)
    ensures IsEnd(p + r, c + (h + r))
  {
    assert c + (h + r) == (c + h) + r;
  }

  /** Dropping as many bytes as were carried leaves only bytes handed out since. */
  lemma EndWithoutCarried(c: seq<byte>, h: seq<byte>, j: seq<byte>)
    requires |c| <= |j| && IsEnd(j, c + h)
    ensures IsEnd(j[|c|..], h)
  {
  }

  lemma CutWhole(joined: seq<byte>, f: nat)
    requires f > 0 && Whole(|joined|, f)
    ensures Cut(joined, f) == (joined, [])
  {
    assert joined[..|joined|] == joined && joined[|joined|..] == [];
  }

  /** The bytes before the last `n` of `total`, both a whole number of frames. */
  lemma WholeBefore(total: nat, n: nat, f: nat)
    requires f > 0 && n <= total && Whole(total, f) && Whole(n, f)
    ensures Whole(total - n, f)
  {
    RemAdd(total - n, n, f);
    assert total - n + n == total;
  }

  lemma ShortFrames(c: seq<byte>, h: seq<byte>, p: seq<byte>, reply: seq<byte>)
    requires |c| <= |p| + |reply| && IsEnd(p, c + h)
    ensures IsEnd((p + reply)[|c|..], h + reply)
  {
    EndOfStream(c, h, p, reply);
    EndWithoutCarried(c, h + reply, p + reply);
  }

  /** A short reply behind `c` carried bytes makes exactly as many stale. */
  lemma ShortStale(a: Assembler, c: seq<byte>, h: seq<byte>, reply: seq<byte>)
    requires a.frameBytes > 0 && |c| < a.frameBytes && |reply| < POP_LIMIT
    requires |a.partial| <= |c| + |h|
    requires Whole(|h| + |reply|, a.frameBytes) && Whole(|c| + |h| - |a.partial|, a.frameBytes)
    ensures Stale(a, reply) == |c| <= |a.partial| + |reply|
    ensures Whole(|a.partial| + |reply| - |c|, a.frameBytes)
  {
    ShortLengths(|c|, |h|, |a.partial|, |reply|, a.frameBytes);
  }

  /** add, when the stale bytes are the `c` first ones and the others are whole frames. */
  lemma AddDrops(a: Assembler, c: nat, reply: seq<byte>)
    requires a.frameBytes > 0 && Stale(a, reply) == c <= |a.partial| + |reply|
    requires Whole(|a.partial| + |reply| - c, a.frameBytes)
    ensures Add(a, reply) == (Assembler(a.frameBytes, [], a.framingLosses + if c == 0 then 0 else 1),
                              (a.partial + reply)[c..])
  {
    var joined := (a.partial + reply)[c..];
    assert |joined| == |a.partial| + |reply| - c;
    CutWhole(joined, a.frameBytes);
  }

  /** What a short reply behind `c` carried bytes and `h` bytes handed out before does: nothing is kept,
      and what is returned is everything kept and received but the carried bytes, the end of the bytes
      handed out, and starts on a frame boundary. A loss is counted exactly when bytes were carried. */
  predicate ComesRight(a: Assembler, c: seq<byte>, h: seq<byte>, reply: seq<byte>) {
    var (b, frames) := Add(a, reply);
    && b.partial == [] && b.frameBytes == a.frameBytes > 0
    && |frames| == |a.partial| + |reply| - |c| && IsEnd(frames, h + reply)
    && Whole(|frames|, a.frameBytes) && Whole(|h + reply| - |frames|, a.frameBytes)
    && b.framingLosses == a.framingLosses + if c == [] then 0 else 1
  }

  lemma ShortAdd(a: Assembler, c: seq<byte>, h: seq<byte>, reply: seq<byte>)
    requires a.frameBytes > 0 && |c| < a.frameBytes && |reply| < POP_LIMIT
    requires IsEnd(a.partial, c + h)
    requires Whole(|h| + |reply|, a.frameBytes) && Whole(|c| + |h| - |a.partial|, a.frameBytes)
    ensures ComesRight(a, c, h, reply)
  {
    ShortStale(a, c, h, reply);
    AddDrops(a, |c|, reply);
    ShortFrames(c, h, a.partial, reply);
    WholeBefore(|h| + |reply|, |a.partial| + |reply| - |c|, a.frameBytes);
  }

  /** A short reply ends on a frame boundary and puts the framing right. */
  lemma ShortReply(s: System)
    requires Inv(s) && Short(s)
    ensures ComesRight(s.assembler, s.carried, s.handed, Handed(s))
    ensures Inv(Next(s, Reply))
  {
    var reply := Handed(s);
    assert reply == s.buffer;
    ShortAdd(s.assembler, s.carried, s.handed, reply);
    var (a, frames) := Add(s.assembler, reply);
    ShortKeeps(a, s.handed + reply, s.frames + frames);
  }

  lemma ShortKeeps(a: Assembler, handed: seq<byte>, frames: seq<byte>)
    requires a.frameBytes > 0 && a.partial == [] && Whole(|handed|, a.frameBytes)
    ensures Inv(System(a, [], handed, [], frames))
  {
    assert [] + handed == handed;
  }

  /** A full reply: what is returned and what is kept are the end of the stream behind the carried
      bytes, cut at multiples of the frame size from those bytes on. */
  lemma FullReply(s: System)
    requires Inv(s) && !Short(s)
    ensures var (a, frames) := Add(s.assembler, Handed(s));
      var stream := s.carried + (s.handed + Handed(s));
      && a.frameBytes == s.assembler.frameBytes && |a.partial| < a.frameBytes
      && IsEnd(frames + a.partial, stream) && Whole(|frames|, a.frameBytes)
      && |stream| - |frames| - |a.partial| == |s.carried + s.handed| - |s.assembler.partial|
      && a.framingLosses == s.assembler.framingLosses
  {
    NothingStale(s.assembler, Handed(s));
    var (a, frames) := Add(s.assembler, Handed(s));
    EndOfStream(s.carried, s.handed, s.assembler.partial, Handed(s));
    assert |frames| + |a.partial| == |frames + a.partial| == |s.assembler.partial| + |Handed(s)|;
  }

  lemma FullReplyKeeps(s: System)
    requires Inv(s) && !Short(s)
    ensures Inv(Next(s, Reply))
  {
    FullReply(s);
    var (a, frames) := Add(s.assembler, Handed(s));
    var stream := s.carried + (s.handed + Handed(s));
    EndOfBoth(stream, frames, a.partial);
    var before := |s.carried + s.handed| - |s.assembler.partial|;
    RemAdd(before, |frames|, a.frameBytes);
    assert |stream| - |a.partial| == before + |frames|;
  }

  lemma EndOfBoth(t: seq<byte>, x: seq<byte>, y: seq<byte>)
    requires IsEnd(x + y, t)
    ensures IsEnd(y, t)
  {
    assert y == (x + y)[|x|..];
  }

  lemma NothingStale(a: Assembler, reply: seq<byte>)
    requires a.frameBytes > 0 && Stale(a, reply) == 0
    ensures var (b, frames) := Add(a, reply);
      && frames + b.partial == a.partial + reply && b.framingLosses == a.framingLosses
      && b.frameBytes == a.frameBytes && |b.partial| == Rem(|a.partial| + |reply|, a.frameBytes)
  {
    assert (a.partial + reply)[0..] == a.partial + reply;
  }

  lemma StepKeeps(s: System, e: Event)
    requires Inv(s) && Enabled(s, e)
    ensures Inv(Next(s, e))
  {
    match e
    case Produce(frame) =>
      assert Rem(|frame|, s.assembler.frameBytes) == Rem(0, s.assembler.frameBytes);
      RemAdd(|s.handed| + |s.buffer|, |frame|, s.assembler.frameBytes);
    case Reply => if Short(s) { ShortReply(s); } else { FullReplyKeeps(s); }
    case Flush =>
  }

  lemma {:induction false} RunKeeps(s: System, es: seq<Event>)
    requires Inv(s) && IsRun(s, es)
    ensures Inv(After(s, es))
    decreases |es|
  {
    if es == [] {
    } else {
      StepKeeps(s, es[0]);
      RunKeeps(Next(s, es[0]), es[1..]);
    }
  }

  // ------------------------------------------------------------------------------ the theorems

  /** The framing comes right again: from any kept part shorter than a frame, after any frames, replies
      and flushes, a short reply returns only true frames. */
  lemma Resynchronises(a: Assembler, es: seq<Event>)
    requires a.frameBytes > 0 && |a.partial| < a.frameBytes
    requires IsRun(Fresh(a), es) && Short(After(Fresh(a), es))
    ensures var s := After(Fresh(a), es); ComesRight(s.assembler, s.carried, s.handed, Handed(s))
  {
    RunKeeps(Fresh(a), es);
    ShortReply(After(Fresh(a), es));
  }

  /** Counted from the carried bytes on, the true frames start `carried` bytes in and then every `f`. */
  predicate OnBoundary(start: nat, carried: nat, f: nat)
    requires f > 0
  {
    carried <= start && Whole(start - carried, f)
  }

  /** A multiple of the frame size is a boundary of the true frames only when nothing was carried. */
  lemma {:induction false} BoundaryExactly(start: nat, carried: nat, f: nat)
    requires carried < f && Whole(start, f)
    ensures OnBoundary(start, carried, f) <==> carried == 0
  {
    if 0 < carried <= start {
      RemsDiffer(start - carried, start, f);
    }
  }

  /** Nothing is returned exactly while the kept part and the reply are less than one frame. */
  lemma ReturnsNothingExactly(a: Assembler, reply: seq<byte>)
    requires a.frameBytes > 0 && Stale(a, reply) == 0
    ensures Add(a, reply).1 == [] <==> |a.partial| + |reply| < a.frameBytes
  {
    NothingStale(a, reply);
  }

  /** Where what a full reply returns starts, in the stream of the carried bytes and the bytes handed
      out: on a boundary of the true frames, or nowhere because nothing is returned. */
  predicate ReturnsTrueFrames(s: System)
    requires s.assembler.frameBytes > 0
  {
    var (b, frames) := Add(s.assembler, Handed(s));
    var stream := s.carried + (s.handed + Handed(s));
    var start := |stream| - |b.partial| - |frames|;
    frames == [] || (0 <= start && frames == stream[start..start + |frames|]
                     && OnBoundary(start, |s.carried|, s.assembler.frameBytes))
  }

  lemma FullReplyAligned(s: System)
    requires Inv(s) && !Short(s)
    ensures ReturnsTrueFrames(s)
       <==> s.carried == [] || |s.assembler.partial| + |Handed(s)| < s.assembler.frameBytes
  {
    FullReply(s);
    var (b, frames) := Add(s.assembler, Handed(s));
    var stream := s.carried + (s.handed + Handed(s));
    FrontOfEnd(stream, frames, b.partial);
    ReturnsNothingExactly(s.assembler, Handed(s));
    BoundaryExactly(|stream| - |b.partial| - |frames|, |s.carried|, b.frameBytes);
  }

  /** After any run, a full reply returns true frames if and only if no byte was carried over the flush,
      or it returns nothing because the kept part and the reply do not make up one frame. */
  lemma FullRepliesReturnTrueFramesExactly(a: Assembler, es: seq<Event>)
    requires a.frameBytes > 0 && |a.partial| < a.frameBytes
    requires IsRun(Fresh(a), es) && !Short(After(Fresh(a), es))
    ensures var s := After(Fresh(a), es);
      && s.assembler.frameBytes > 0
      && (ReturnsTrueFrames(s)
          <==> s.carried == [] || |s.assembler.partial| + |Handed(s)| < s.assembler.frameBytes)
  {
    RunKeeps(Fresh(a), es);
    FullReplyAligned(After(Fresh(a), es));
  }

  lemma FrontOfEnd(t: seq<byte>, x: seq<byte>, y: seq<byte>)
    requires IsEnd(x + y, t)
    ensures 0 <= |t| - |y| - |x| && x == t[|t| - |y| - |x|..|t| - |y|]
  {
    assert x == (x + y)[..|x|];
  }

  /** The drive buffers two frames, is asked once, flushes, buffers two more and is asked again. */
  function FlushedInBetween(x: seq<byte>, y: seq<byte>, u: seq<byte>, v: seq<byte>): seq<Event> {
    [Produce(x), Produce(y), Reply, Flush, Produce(u), Produce(v)]
  }

  lemma AskedOnce(x: seq<byte>, y: seq<byte>)
    requires |x| == |y| == 300
    ensures var s := System(Assembler(300, [], 0), x + y, [], [], []);
            Next(s, Reply) == System(Assembler(300, y[..200], 0), y[200..], x + y[..200], [], x)
  {
    var s := System(Assembler(300, [], 0), x + y, [], [], []);
    assert Handed(s) == x + y[..200];
    assert [] + Handed(s) == Handed(s) && Handed(s)[0..] == Handed(s);
    assert Rem(500, 300) == Rem(200, 300) == 200;
    assert Handed(s)[..300] == x && Handed(s)[300..] == y[..200];
    assert (x + y)[500..] == y[200..];
    assert [] + x == x;
  }

  /** A frame that no drive produced: with 300-byte frames, the full reply after the flush returns 200
      bytes from before it and 100 bytes from behind it as one frame. */
  lemma StraddlingFrame(x: seq<byte>, y: seq<byte>, u: seq<byte>, v: seq<byte>)
    requires |x| == |y| == |u| == |v| == 300
    ensures var start, es := Fresh(Assembler(300, [], 0)), FlushedInBetween(x, y, u, v);
      && IsRun(start, es) && !Short(After(start, es)) && After(start, es).carried == y[..200]
      && y[..200] + u[..100] <= Add(After(start, es).assembler, Handed(After(start, es))).1
  {
    var start, es := Fresh(Assembler(300, [], 0)), FlushedInBetween(x, y, u, v);
    var s2 := System(Assembler(300, [], 0), x + y, [], [], []);
    var s4 := System(Assembler(300, y[..200], 0), [], [], y[..200], []);
    var s6 := s4.(buffer := u + v);
    assert [] + x == x && [] + u == u;
    AskedOnce(x, y);
    assert es[2..] == [Reply, Flush, Produce(u), Produce(v)];
    assert es[2..][2..] == [Produce(u), Produce(v)];
    TwoSteps(s4, es[2..][2..], s4.(buffer := u), s6);
    TwoSteps(s2, es[2..], Next(s2, Reply), s4);
    TwoSteps(start, es, start.(buffer := x), s2);
    Straddles(y[..200], u, v);
  }

  lemma TwoSteps(s: System, es: seq<Event>, r: System, t: System)
    requires |es| >= 2 && Enabled(s, es[0]) && Next(s, es[0]) == r && Enabled(r, es[1]) && Next(r, es[1]) == t
    requires IsRun(t, es[2..])
    ensures IsRun(s, es) && After(s, es) == After(t, es[2..])
  {
    assert es[1..][1..] == es[2..];
  }

  lemma Straddles(p: seq<byte>, u: seq<byte>, v: seq<byte>)
    requires |p| == 200 && |u| == |v| == 300
    ensures var s := System(Assembler(300, p, 0), u + v, [], p, []);
            !Short(s) && p + u[..100] <= Add(s.assembler, Handed(s)).1
  {
    var s := System(Assembler(300, p, 0), u + v, [], p, []);
    assert Handed(s) == u + v[..200];
    var joined := p + Handed(s);
    assert joined[0..] == joined;
    assert Rem(700, 300) == Rem(400, 300) == Rem(100, 300) == 100;
    assert joined[..600][..300] == p + u[..100];
  }

  /** The frames the drive produced, joined. */
  function Produced(es: seq<Event>): seq<byte> {
    if es == [] then [] else
      (if es[0].Produce? then es[0].frame else []) + Produced(es[1..])
  }

  /** Nothing was carried over, and the assembler has returned all it was handed, up to the kept
      part. */
  predicate Complete(s: System) {
    Inv(s) && s.carried == [] && s.frames + s.assembler.partial == s.handed
  }

  /** With nothing carried over, a reply finds no stale bytes. */
  lemma NoneStale(s: System)
    requires Inv(s) && s.carried == []
    ensures Stale(s.assembler, Handed(s)) == 0
  {
    if Short(s) {
      assert Handed(s) == s.buffer;
      ShortLengths(0, |s.handed|, |s.assembler.partial|, |s.buffer|, s.assembler.frameBytes);
    }
  }

  lemma Joined(x: seq<byte>, p: seq<byte>, h: seq<byte>, r: seq<byte>, f: seq<byte>, q: seq<byte>)
    requires x + p == h && f + q == p + r
    ensures x + f + q == h + r
  {
    assert x + f + q == x + (f + q);
    assert x + (p + r) == x + p + r;
  }

  lemma ReplyKeepsComplete(s: System)
    requires Complete(s)
    ensures Complete(Next(s, Reply))
    ensures Next(s, Reply).assembler.framingLosses == s.assembler.framingLosses
    ensures Next(s, Reply).assembler.frameBytes == s.assembler.frameBytes
  {
    StepKeeps(s, Reply);
    NoneStale(s);
    NothingStale(s.assembler, Handed(s));
    var (a, frames) := Add(s.assembler, Handed(s));
    Joined(s.frames, s.assembler.partial, s.handed, Handed(s), frames, a.partial);
  }

  lemma StepKeepsComplete(s: System, e: Event)
    requires Complete(s) && Enabled(s, e) && !e.Flush?
    ensures var r := Next(s, e);
      && Complete(r) && r.assembler.framingLosses == s.assembler.framingLosses
      && r.assembler.frameBytes == s.assembler.frameBytes
  {
    if e.Reply? {
      ReplyKeepsComplete(s);
    } else {
      StepKeeps(s, e);
    }
  }

  predicate NoFlush(es: seq<Event>) {
    es == [] || (!es[0].Flush? && NoFlush(es[1..]))
  }

  lemma {:induction false} LosslessFrom(s: System, es: seq<Event>)
    requires Complete(s) && IsRun(s, es) && NoFlush(es)
    ensures var r := After(s, es);
      && Complete(r) && r.assembler.framingLosses == s.assembler.framingLosses
      && r.assembler.frameBytes == s.assembler.frameBytes
    decreases |es|
  {
    if es == [] {
    } else {
      StepKeepsComplete(s, es[0]);
      LosslessFrom(Next(s, es[0]), es[1..]);
    }
  }

  /** All the drive has ever put in since the last flush, handed out or not. */
  function Total(s: System): seq<byte> { s.handed + s.buffer }

  lemma StepForgetsNothing(s: System, e: Event)
    requires Enabled(s, e) && !e.Flush?
    ensures Total(Next(s, e)) == Total(s) + if e.Produce? then e.frame else []
  {
    if e.Reply? {
      var reply := Handed(s);
      assert s.buffer == reply + s.buffer[|reply|..];
      assert s.handed + reply + s.buffer[|reply|..] == s.handed + (reply + s.buffer[|reply|..]);
    } else {
      assert s.handed + (s.buffer + e.frame) == s.handed + s.buffer + e.frame;
    }
  }

  /** What was handed out and what is left are all the drive produced. */
  lemma {:induction false} NothingForgotten(s: System, es: seq<Event>)
    requires IsRun(s, es) && NoFlush(es)
    ensures Total(After(s, es)) == Total(s) + Produced(es)
    decreases |es|
  {
    if es == [] {
      assert Total(s) + [] == Total(s);
    } else {
      StepForgetsNothing(s, es[0]);
      NothingForgotten(Next(s, es[0]), es[1..]);
      Associative(Total(s), if es[0].Produce? then es[0].frame else [], Produced(es[1..]));
    }
  }

  /** The assembler is lossless: as long as the drive does not flush, the frames returned and the
      kept part are exactly the bytes received, the kept part is shorter than a frame, no loss is
      counted, and what the drive has left completes the frames it produced. */
  lemma Lossless(frameBytes: nat, es: seq<Event>)
    requires frameBytes > 0
    requires IsRun(Fresh(Assembler(frameBytes, [], 0)), es)
    requires NoFlush(es)
    ensures var s := After(Fresh(Assembler(frameBytes, [], 0)), es);
      && s.frames + s.assembler.partial == s.handed
      && |s.assembler.partial| < frameBytes
      && s.assembler.framingLosses == 0
      && s.frames + s.assembler.partial + s.buffer == Produced(es)
  {
    LosslessFrom(Fresh(Assembler(frameBytes, [], 0)), es);
    NothingForgotten(Fresh(Assembler(frameBytes, [], 0)), es);
    assert [] + Produced(es) == Produced(es);
  }
}
