/** The SPoE wire format, and cutting a received byte stream into frames. */
module SpoeFrames {
  import opened Bytes

  /** kHeaderSize and kMaxDataSize. */
  const HEADER_SIZE: nat := 7
  const MAX_DATA_SIZE: nat := 512

  datatype Header = Header(kind: byte, sequenceId: u16, status: u16, dataLength: u16)

  /** One request or reply. `kind` is the message type byte. */
  datatype Frame = Frame(kind: byte, sequenceId: u16, status: u16, data: seq<byte>)

  predicate Fits(f: Frame) { |f.data| <= MAX_DATA_SIZE }

  function HeaderBytes(f: Frame): (h: seq<byte>)
    requires |f.data| < 0x1_0000
    ensures |h| == HEADER_SIZE
  {
    [f.kind, Low(f.sequenceId), High(f.sequenceId), Low(f.status), High(f.status),
     Low(|f.data|), High(|f.data|)]
  }

  function Encoded(f: Frame): (b: seq<byte>)
    requires Fits(f)
    ensures |b| == HEADER_SIZE + |f.data|
  {
    HeaderBytes(f) + f.data
  }

  /** encodeFrame. The error carries the size that is too large. */
  function EncodeFrame(f: Frame): (r: Result<seq<byte>, nat>) {
    if !Fits(f) then Err(|f.data|) else Ok(Encoded(f))
  }

  function DecodeHeader(b: seq<byte>): (r: Option<Header>) {
    if |b| < HEADER_SIZE then None
    else Some(Header(b[0], ReadU16(b, 1), ReadU16(b, 3), ReadU16(b, 5)))
  }

  // ---------------------------------------------------------------------------------- takeFrame

  datatype Take = Incomplete | Oversize(claimed: nat) | Took(frame: Frame, rest: seq<byte>)

  function TakeFrame(received: seq<byte>): (t: Take)
    ensures t.Took? ==> Fits(t.frame) && |t.rest| < |received|
  {
    match DecodeHeader(received)
    case None => Incomplete
    case Some(h) =>
      if h.dataLength > MAX_DATA_SIZE then Oversize(h.dataLength) else
        var size := HEADER_SIZE + h.dataLength;
        if |received| < size then Incomplete
        else Took(Frame(h.kind, h.sequenceId, h.status, received[HEADER_SIZE..size]), received[size..])
  }

  /** What was encoded is what is taken, whatever follows it. */
  lemma TakeEncoded(f: Frame, rest: seq<byte>)
    requires Fits(f)
    ensures TakeFrame(Encoded(f) + rest) == Took(f, rest)
  {
    var b := Encoded(f) + rest;
    assert DecodeHeader(b) == Some(Header(f.kind, f.sequenceId, f.status, |f.data|));
    assert b[HEADER_SIZE..HEADER_SIZE + |f.data|] == f.data;
    assert b[HEADER_SIZE + |f.data|..] == rest;
  }

  lemma HeaderWasEncoded(b: seq<byte>, f: Frame)
    requires |b| >= HEADER_SIZE && |f.data| < 0x1_0000
    requires DecodeHeader(b) == Some(Header(f.kind, f.sequenceId, f.status, |f.data|))
    ensures b[..HEADER_SIZE] == HeaderBytes(f)
  {
    PartsOfWord(b[1], b[2]);
    PartsOfWord(b[3], b[4]);
    PartsOfWord(b[5], b[6]);
  }

  lemma InThree(b: seq<byte>, i: nat, j: nat)
    requires i <= j <= |b|
    ensures b[..i] + b[i..j] + b[j..] == b
  {
  }

  /** Conversely, what is taken is what stood at the front of the bytes. */
  lemma TakenWasEncoded(received: seq<byte>)
    requires TakeFrame(received).Took?
    ensures Encoded(TakeFrame(received).frame) + TakeFrame(received).rest == received
  {
    var Took(f, rest) := TakeFrame(received);
    HeaderWasEncoded(received, f);
    InThree(received, HEADER_SIZE, HEADER_SIZE + |f.data|);
  }

  /** A decision once made is not changed by the bytes that arrive later. */
  lemma TakeMonotone(received: seq<byte>, more: seq<byte>)
    ensures TakeFrame(received).Took? ==>
      TakeFrame(received + more) == Took(TakeFrame(received).frame, TakeFrame(received).rest + more)
    ensures TakeFrame(received).Oversize? ==> TakeFrame(received + more) == TakeFrame(received)
  {
    var both := received + more;
    if TakeFrame(received).Took? {
      var size := HEADER_SIZE + ReadU16(received, 5);
      assert both[HEADER_SIZE..size] == received[HEADER_SIZE..size];
      assert both[size..] == received[size..] + more;
    }
  }

  /** A proper part of one frame is never taken and never refused. */
  lemma PartIsIncomplete(f: Frame, n: nat)
    requires Fits(f) && n < |Encoded(f)|
    ensures TakeFrame(Encoded(f)[..n]) == Incomplete
  {
    var part, rest := Encoded(f)[..n], Encoded(f)[n..];
    assert part + rest == Encoded(f) + [];
    TakeEncoded(f, []);
    TakeMonotone(part, rest);
  }

  // -------------------------------------------------------------------------- byte by byte

  /** An encoded frame on the wire: the type, then the sequence id, the status and the length with the low
      byte first, then the data. It is refused exactly above 512 bytes of data. */
  lemma FrameOnTheWire(f: Frame)
    ensures EncodeFrame(f).Ok? <==> |f.data| <= 512
    ensures |f.data| <= 512 ==> EncodeFrame(f) == Ok(
      [f.kind, f.sequenceId % 256, f.sequenceId / 256, f.status % 256, f.status / 256, |f.data| % 256, |f.data| / 256]
      + f.data)
    ensures |f.data| > 512 ==> EncodeFrame(f) == Err(|f.data|)
  {
  }

  /** The length that the header at the front claims. */
  function Claimed(b: seq<byte>): nat
    requires |b| >= 7
  {
    (b[5] as int) + 256 * (b[6] as int)
  }

  /** takeFrame by the bytes: it waits for seven bytes and then for what they claim, refuses a claim of
      more than 512, and takes the frame that stands there. */
  lemma TakesExactly(b: seq<byte>)
    ensures TakeFrame(b) ==
      if |b| < 7 then Incomplete
      else if Claimed(b) > 512 then Oversize(Claimed(b))
      else if |b| < 7 + Claimed(b) then Incomplete
      else Took(Frame(b[0], b[1] as int + 256 * b[2] as int, b[3] as int + 256 * b[4] as int, b[7..7 + Claimed(b)]),
                b[7 + Claimed(b)..])
  {
  }

  // ------------------------------------------------------------------------------ whole streams

  function EncodedAll(fs: seq<Frame>): seq<byte>
    requires forall f :: f in fs ==> Fits(f)
  {
    if fs == [] then [] else Encoded(fs[0]) + EncodedAll(fs[1..])
  }

  /** Everything takeFrame gives until it stops: the frames, the bytes left, and whether it stopped at
      a header that claims too much, which closes the connection and clears the bytes. */
  datatype Drained = Drained(frames: seq<Frame>, rest: seq<byte>, refused: bool)

  function Drain(received: seq<byte>): (d: Drained)
    decreases |received|
  {
    match TakeFrame(received)
    case Incomplete => Drained([], received, false)
    case Oversize(_) => Drained([], [], true)
    case Took(f, rest) => Before([f], Drain(rest))
  }

  /** The same drain with frames in front of it. */
  function Before(fs: seq<Frame>, d: Drained): Drained { d.(frames := fs + d.frames) }

  lemma BeforeBefore(fs: seq<Frame>, gs: seq<Frame>, d: Drained)
    ensures Before(fs, Before(gs, d)) == Before(fs + gs, d)
    ensures Before([], d) == d
  {
    assert fs + (gs + d.frames) == fs + gs + d.frames;
    assert [] + d.frames == d.frames;
  }

  /** The same with the bytes arriving in chunks, each drained as it comes. */
  function Feed(kept: seq<byte>, chunks: seq<seq<byte>>): (d: Drained)
    decreases |chunks|
  {
    var d := Drain(kept);
    if d.refused || chunks == [] then d else
      Before(d.frames, Feed(d.rest + chunks[0], chunks[1..]))
  }

  function Joined(chunks: seq<seq<byte>>): seq<byte> {
    if chunks == [] then [] else chunks[0] + Joined(chunks[1..])
  }

  /** Bytes that arrive later continue where the drain of the earlier ones stopped. */
  lemma {:induction false} DrainInTwo(received: seq<byte>, more: seq<byte>)
    ensures var d := Drain(received);
      Drain(received + more) == if d.refused then d else Before(d.frames, Drain(d.rest + more))
    decreases |received|
  {
    TakeMonotone(received, more);
    var t := TakeFrame(received);
    if t.Incomplete? {
      BeforeBefore([], [], Drain(received + more));
    } else if t.Took? {
      DrainInTwo(t.rest, more);
      var d := Drain(t.rest);
      assert Drain(received + more) == Before([t.frame], Drain(t.rest + more));
      if !d.refused {
        BeforeBefore([t.frame], d.frames, Drain(d.rest + more));
      }
    }
  }

  /** How the bytes are cut into reads makes no difference, for any bytes at all. */
  lemma {:induction false} FeedIsDrain(kept: seq<byte>, chunks: seq<seq<byte>>)
    ensures Feed(kept, chunks) == Drain(kept + Joined(chunks))
    decreases |chunks|
  {
    var d := Drain(kept);
    if chunks == [] {
      assert kept + [] == kept;
    } else {
      DrainInTwo(kept, Joined(chunks));
      if !d.refused {
        FeedIsDrain(d.rest + chunks[0], chunks[1..]);
        assert d.rest + chunks[0] + Joined(chunks[1..]) == d.rest + Joined(chunks);
      }
    }
  }

  lemma DrainOne(f: Frame, tail: seq<byte>)
    requires Fits(f)
    ensures Drain(Encoded(f) + tail) == Before([f], Drain(tail))
  {
    TakeEncoded(f, tail);
  }

  lemma EncodedFirst(fs: seq<Frame>, rest: seq<byte>)
    requires fs != [] && forall f :: f in fs ==> Fits(f)
    ensures EncodedAll(fs) + rest == Encoded(fs[0]) + (EncodedAll(fs[1..]) + rest)
  {
    Associative(Encoded(fs[0]), EncodedAll(fs[1..]), rest);
  }

  lemma {:induction false} DrainEncoded(fs: seq<Frame>, rest: seq<byte>)
    requires forall f :: f in fs ==> Fits(f)
    ensures Drain(EncodedAll(fs) + rest) == Before(fs, Drain(rest))
  {
    if fs == [] {
      assert EncodedAll(fs) + rest == rest;
      BeforeBefore([], [], Drain(rest));
    } else {
      EncodedFirst(fs, rest);
      DrainOne(fs[0], EncodedAll(fs[1..]) + rest);
      DrainEncoded(fs[1..], rest);
      BeforeBefore([fs[0]], fs[1..], Drain(rest));
      assert [fs[0]] + fs[1..] == fs;
    }
  }

  /** Chunking independence. For every list of frames and every way of splitting their encodings and
      a beginning of one more frame into reads, takeFrame yields exactly those frames in order and
      leaves exactly that beginning. */
  lemma ChunkingIndependence(fs: seq<Frame>, next: Frame, n: nat, chunks: seq<seq<byte>>)
    requires (forall f :: f in fs ==> Fits(f)) && Fits(next) && n < |Encoded(next)|
    requires Joined(chunks) == EncodedAll(fs) + Encoded(next)[..n]
    ensures Feed([], chunks) == Drained(fs, Encoded(next)[..n], false)
  {
    FeedIsDrain([], chunks);
    assert [] + Joined(chunks) == Joined(chunks);
    PartIsIncomplete(next, n);
    DrainEncoded(fs, Encoded(next)[..n]);
    assert fs + [] == fs;
  }

  /** A header that claims more than a frame can carry is refused, behind any frames and however the
      bytes arrive, and nothing is kept. */
  lemma OversizeIsRefused(fs: seq<Frame>, bad: seq<byte>, chunks: seq<seq<byte>>)
    requires (forall f :: f in fs ==> Fits(f)) && |bad| >= HEADER_SIZE
    requires ReadU16(bad, 5) > MAX_DATA_SIZE
    requires Joined(chunks) == EncodedAll(fs) + bad
    ensures Feed([], chunks) == Drained(fs, [], true)
  {
    FeedIsDrain([], chunks);
    assert [] + Joined(chunks) == Joined(chunks);
    DrainEncoded(fs, bad);
    assert fs + [] == fs;
  }
}
