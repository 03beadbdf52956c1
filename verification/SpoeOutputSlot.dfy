/** The latest-wins output slot: three buffers, one writer, one reader and one atomic byte.

    The step system interleaves the writer and the reader at every atomic operation and at every
    copied byte, under sequential consistency. The class below it is the sequential form. */
module SpoeOutputSlots {
  import opened Bytes

  // --------------------------------------------------- the atomic byte: an index and the fresh bit

  /** kFresh. */
  const FRESH: nat := 4

  function WithFresh(index: nat): nat { if IsFresh(index) then index else index + FRESH }

  predicate IsFresh(middle: nat) { (middle / 4) % 2 == 1 }

  /** The bits of kIndexMask. */
  function Index(middle: nat): nat { middle % 4 }

  // --------------------------------------------------------------------------------- the steps

  datatype Writer =
    | NotWriting
    | Copying(frame: seq<byte>, k: nat)  // k bytes of the frame are in the writer's buffer
    | Adopting(previous: nat)            // the exchange is done, writeIndex_ is still the old one

  datatype Reader =
    | NotReading
    | SawFresh(since: nat)                            // the load saw the fresh bit
    | Taking(previous: nat, newest: nat, since: nat)  // the exchange is done, readIndex_ is still old

  /** One finished read. `frame` are the bytes returned. Frames are numbered in the order they were
      published; `since` is the newest number when the read began, `newest` when it looked. */
  datatype Read = Read(frame: seq<byte>, newest: nat, since: nat)

  datatype Slot = Slot(
    buffers: seq<seq<byte>>, writeIndex: nat, readIndex: nat, middle: nat,
    writer: Writer, reader: Reader,
    published: seq<seq<byte>>,  // every frame handed over by the writer, the initial zeros first
    held: nat,                  // the number of the frame the reader holds
    log: seq<Read>)

  datatype Move = BeginWrite(frame: seq<byte>) | WriterStep | ReaderStep

  function Reset(frameBytes: nat): Slot {
    var zeros := seq(frameBytes, i => 0);
    Slot([zeros, zeros, zeros], 0, 1, 2, NotWriting, NotReading, [zeros], 0, [])
  }

  function FrameBytes(s: Slot): nat
    requires |s.buffers| == 3
  {
    |s.buffers[0]|
  }

  /** Everything indexed is there. The steps are defined on these states and stay in them. */
  predicate Sized(s: Slot) {
    && |s.buffers| == 3
    && (forall i :: 0 <= i < 3 ==> |s.buffers[i]| == FrameBytes(s))
    && s.writeIndex < 3 && s.readIndex < 3 && Index(s.middle) < 3
    && (s.writer.Copying? ==> |s.writer.frame| == FrameBytes(s) && s.writer.k <= FrameBytes(s))
    && (s.writer.Adopting? ==> Index(s.writer.previous) < 3)
    && (s.reader.Taking? ==> Index(s.reader.previous) < 3)
    && |s.published| > 0
  }

  /** The header asks the writer for a frame of the size given to reset. */
  predicate Enabled(s: Slot, m: Move) {
    && Sized(s)
    && match m
       case BeginWrite(frame) => s.writer.NotWriting? && |frame| == FrameBytes(s)
       case WriterStep => !s.writer.NotWriting?
       case ReaderStep => true
  }

  function WriterNext(s: Slot): Slot
    requires Enabled(s, WriterStep)
  {
    match s.writer
    case Copying(frame, k) =>
      if k < |frame| then
        s.(buffers := s.buffers[s.writeIndex := s.buffers[s.writeIndex][k := frame[k]]],
           writer := Copying(frame, k + 1))
      else
        s.(middle := WithFresh(s.writeIndex), writer := Adopting(s.middle),
           published := s.published + [frame])
    case Adopting(previous) => s.(writeIndex := Index(previous), writer := NotWriting)
  }

  /** The first step of a read is the load. Without the fresh bit it is also the last one. */
  function ReaderNext(s: Slot): Slot
    requires Sized(s)
  {
    var newest := |s.published| - 1;
    match s.reader
    case NotReading =>
      if IsFresh(s.middle) then s.(reader := SawFresh(newest))
      else s.(log := s.log + [Read(s.buffers[s.readIndex], newest, newest)])
    case SawFresh(since) =>
      s.(middle := s.readIndex, reader := Taking(s.middle, newest, since), held := newest)
    case Taking(previous, newest, since) =>
      s.(readIndex := Index(previous), reader := NotReading,
         log := s.log + [Read(s.buffers[Index(previous)], newest, since)])
  }

  function Next(s: Slot, m: Move): Slot
    requires Enabled(s, m)
  {
    match m
    case BeginWrite(frame) => s.(writer := Copying(frame, 0))
    case WriterStep => WriterNext(s)
    case ReaderStep => ReaderNext(s)
  }

  predicate IsRun(s: Slot, ms: seq<Move>)
    decreases |ms|
  {
    ms == [] || (Enabled(s, ms[0]) && IsRun(Next(s, ms[0]), ms[1..]))
  }

  function After(s: Slot, ms: seq<Move>): Slot
    requires IsRun(s, ms)
    decreases |ms|
  {
    if ms == [] then s else After(Next(s, ms[0]), ms[1..])
  }

  ghost predicate Reachable(s: Slot) {
    exists frameBytes: nat, ms: seq<Move> ::
      IsRun(Reset(frameBytes), ms) && After(Reset(frameBytes), ms) == s
  }

  // ------------------------------------------------------------------------------ the invariant

  /** The buffer each side owns, its own index field or the one it has just got. */
  function WriterOwns(s: Slot): nat {
    if s.writer.Adopting? then Index(s.writer.previous) else s.writeIndex
  }

  function ReaderOwns(s: Slot): nat {
    if s.reader.Taking? then Index(s.reader.previous) else s.readIndex
  }

  /** The three indexes are a permutation of 0, 1 and 2. */
  predicate Permutation(s: Slot) {
    var w, m, r := WriterOwns(s), Index(s.middle), ReaderOwns(s);
    w < 3 && m < 3 && r < 3 && w != m && m != r && w != r
  }

  /** The buffers say what was published: the fresh bit marks the newest frame, and without it the
      reader has the newest frame already. */
  predicate Contents(s: Slot)
    requires Sized(s)
  {
    var newest := |s.published| - 1;
    && s.held <= newest
    && s.buffers[ReaderOwns(s)] == s.published[s.held]
    && (if IsFresh(s.middle) then s.buffers[Index(s.middle)] == s.published[newest]
        else s.held == newest)
    && (s.writer.Copying? ==> s.buffers[s.writeIndex][..s.writer.k] == s.writer.frame[..s.writer.k])
    && (s.reader.SawFresh? ==> IsFresh(s.middle) && s.reader.since <= newest)
    && (s.reader.Taking? ==> s.held == s.reader.newest && s.reader.since <= s.held)
  }

  /** Every read returned one whole frame, the newest at the moment it looked, and never an older
      one than the read before it. */
  ghost predicate ReadsGood(s: Slot) {
    && (forall k :: 0 <= k < |s.log| ==>
          s.log[k].since <= s.log[k].newest < |s.published|
          && s.log[k].frame == s.published[s.log[k].newest])
    && (forall j, k :: 0 <= j < k < |s.log| ==> s.log[j].newest <= s.log[k].newest)
    && (forall k :: 0 <= k < |s.log| ==> s.log[k].newest <= s.held)
  }

  ghost predicate Inv(s: Slot) { Sized(s) && Permutation(s) && Contents(s) && ReadsGood(s) }

  lemma OneMore(b: seq<byte>, frame: seq<byte>, k: nat)
    requires k < |b| == |frame| && b[..k] == frame[..k]
    ensures b[k := frame[k]][..k + 1] == frame[..k + 1]
  {
    assert b[k := frame[k]][..k] == b[..k];
  }

  lemma CopyKeeps(s: Slot)
    requires Inv(s) && s.writer.Copying? && s.writer.k < |s.writer.frame|
    ensures Inv(WriterNext(s))
  {
    OneMore(s.buffers[s.writeIndex], s.writer.frame, s.writer.k);
  }

  /** The exchange: the frame is whole, and the writer's buffer becomes the middle one. */
  lemma PublishKeeps(s: Slot)
    requires Inv(s) && s.writer.Copying? && s.writer.k == |s.writer.frame|
    ensures Inv(WriterNext(s))
  {
    var b, frame := s.buffers[s.writeIndex], s.writer.frame;
    assert b == b[..s.writer.k] && frame == frame[..s.writer.k];
  }

  lemma WriterKeeps(s: Slot)
    requires Inv(s) && Enabled(s, WriterStep)
    ensures Inv(WriterNext(s))
  {
    if s.writer.Copying? {
      if s.writer.k < |s.writer.frame| {
        CopyKeeps(s);
      } else {
        PublishKeeps(s);
      }
    }
  }

  /** The exchange: the newest frame becomes the reader's, and its old buffer the middle one. */
  lemma TakeKeepsBuffers(s: Slot)
    requires Inv(s) && s.reader.SawFresh?
    ensures var r := ReaderNext(s); Sized(r) && Permutation(r) && Contents(r)
  {
    assert Index(s.readIndex) == s.readIndex && !IsFresh(s.readIndex);
  }

  lemma ReaderKeepsBuffers(s: Slot)
    requires Inv(s)
    ensures var r := ReaderNext(s); Sized(r) && Permutation(r) && Contents(r)
  {
    if s.reader.SawFresh? {
      TakeKeepsBuffers(s);
    }
  }

  lemma ReaderKeepsLog(s: Slot)
    requires Inv(s)
    ensures ReadsGood(ReaderNext(s))
  {
    var r := ReaderNext(s);
    assert forall k :: 0 <= k < |s.log| ==> r.log[k] == s.log[k];
  }

  lemma StepKeeps(s: Slot, m: Move)
    requires Inv(s) && Enabled(s, m)
    ensures Inv(Next(s, m))
  {
    match m
    case BeginWrite(_) =>
    case WriterStep => WriterKeeps(s);
    case ReaderStep => ReaderKeepsBuffers(s); ReaderKeepsLog(s);
  }

  lemma {:induction false} RunKeeps(s: Slot, ms: seq<Move>)
    requires Inv(s) && IsRun(s, ms)
    ensures Inv(After(s, ms))
    decreases |ms|
  {
    if ms == [] {
    } else {
      StepKeeps(s, ms[0]);
      RunKeeps(Next(s, ms[0]), ms[1..]);
    }
  }

  lemma ReachableInv(s: Slot)
    requires Reachable(s)
    ensures Inv(s)
  {
    var frameBytes: nat, ms: seq<Move> :|
      IsRun(Reset(frameBytes), ms) && After(Reset(frameBytes), ms) == s;
    RunKeeps(Reset(frameBytes), ms);
  }

  // ------------------------------------------------------------------------------ the theorems

  /** In every interleaving every read returns exactly one published frame, the newest one there was
      when it looked, which is no older than the newest one when the read began; and reads never go
      back in time. */
  lemma ReadsReturnNewestWholeFrame(s: Slot)
    requires Reachable(s)
    ensures Permutation(s)
    ensures forall k :: 0 <= k < |s.log| ==>
              s.log[k].since <= s.log[k].newest < |s.published|
              && s.log[k].frame == s.published[s.log[k].newest]
    ensures forall j, k :: 0 <= j < k < |s.log| ==> s.log[j].newest <= s.log[k].newest
  {
    ReachableInv(s);
  }

  /** From the end of a read to the next step of the reader, whatever the writer does meanwhile, the
      frame the reader holds stays the whole frame it was given. */
  lemma {:induction false} HeldFrameIsNeverWritten(s: Slot, ms: seq<Move>)
    requires Inv(s) && IsRun(s, ms)
    requires forall k :: 0 <= k < |ms| ==> !ms[k].ReaderStep?
    ensures Sized(After(s, ms)) && ReaderOwns(After(s, ms)) == ReaderOwns(s)
    ensures s.held < |s.published|
    ensures After(s, ms).buffers[ReaderOwns(s)] == s.buffers[ReaderOwns(s)] == s.published[s.held]
    decreases |ms|
  {
    if ms == [] {
    } else {
      StepKeeps(s, ms[0]);
      HeldFrameIsNeverWritten(Next(s, ms[0]), ms[1..]);
    }
  }

  // --------------------------------------------------------------------------- the class itself

  /** write and read as calls, one after the other. */
  class SpoeOutputSlot {
    var buffers: seq<seq<byte>>
    var writeIndex: nat
    var readIndex: nat
    var middle: nat

    ghost predicate Valid()
      reads this
    {
      && |buffers| == 3
      && (forall i :: 0 <= i < 3 ==> |buffers[i]| == |buffers[0]|)
      && writeIndex < 3 && readIndex < 3 && Index(middle) < 3
      && writeIndex != readIndex && writeIndex != Index(middle) && readIndex != Index(middle)
    }

    /** What the next read returns. */
    ghost function Newest(): (r: seq<byte>)
      requires Valid()
      reads this
    {
      if IsFresh(middle) then buffers[Index(middle)] else buffers[readIndex]
    }

    constructor (frameBytes: nat)
      ensures Valid() && |buffers[0]| == frameBytes
      ensures forall i :: 0 <= i < frameBytes ==> Newest()[i] == 0
    {
      var zeros: seq<byte> := seq(frameBytes, i => 0);
      buffers := [zeros, zeros, zeros];
      writeIndex, readIndex, middle := 0, 1, 2;
    }

    /** A frame of the full size is what the next read returns. A shorter one is completed by what
        the writer's buffer held before. */
    method Write(frame: seq<byte>)
      requires Valid()
      modifies this
      ensures Valid() && |buffers[0]| == old(|buffers[0]|)
      ensures var n := Min(|frame|, |buffers[0]|);
        Newest() == frame[..n] + old(buffers[writeIndex])[n..]
      ensures |frame| == |buffers[0]| ==> Newest() == frame
      ensures readIndex == old(readIndex) && buffers[readIndex] == old(buffers[readIndex])
    {
      var n := Min(|frame|, |buffers[writeIndex]|);
      buffers := buffers[writeIndex := frame[..n] + buffers[writeIndex][n..]];
      var previous := middle;
      middle := WithFresh(writeIndex);
      writeIndex := Index(previous);
    }

    method Read() returns (frame: seq<byte>)
      requires Valid()
      modifies this
      ensures Valid() && buffers == old(buffers)
      ensures frame == old(Newest()) && Newest() == frame
    {
      if IsFresh(middle) {
        var previous := middle;
        middle := readIndex;
        readIndex := Index(previous);
      }
      frame := buffers[readIndex];
    }
  }
}
