/** What a reader makes of the files a writer leaves: the exact round trip, files that end early,
    foreign byte orders and units, and copies. */
module PcapLaws {
  import opened Bytes
  import opened Pcap

  /** The times a pcap record can hold. */
  predicate Representable(timestampNs: int, f: Format) {
    && 0 <= timestampNs < 0x1_0000_0000 * SECOND
    && (f.nanoseconds || timestampNs % 1000 == 0)
  }

  predicate AllRepresentable(rs: seq<Record>, f: Format) {
    forall i | 0 <= i < |rs| :: Representable(rs[i].timestampNs, f)
  }

  /** Frames whose length fits its 32-bit field. */
  predicate Sized(rs: seq<Record>) {
    forall i | 0 <= i < |rs| :: |rs[i].bytes| < 0x1_0000_0000
  }

  /** What a written time is read back as. */
  function Reread(timestampNs: int, f: Format): int {
    TimeOf(ToU32(Quotient(timestampNs)), Fraction(timestampNs, f.nanoseconds), f.nanoseconds)
  }

  function RereadAll(rs: seq<Record>, f: Format): (s: seq<Record>)
    ensures |s| == |rs|
    ensures forall i | 0 <= i < |rs| :: s[i] == Record(Reread(rs[i].timestampNs, f), rs[i].bytes)
  {
    seq(|rs|, i requires 0 <= i < |rs| => Record(Reread(rs[i].timestampNs, f), rs[i].bytes))
  }

  // ------------------------------------------------------------------------- times, both ways

  lemma FitsU32(n: int)
    requires 0 <= n < 0x1_0000_0000
    ensures ToU32(n) == n
  {
  }

  lemma Thousands(q: int, r: int)
    ensures (q * SECOND + r) % 1000 == r % 1000
  {
    var n := q * 1_000_000;
    assert q * SECOND + r == 1000 * n + r;
  }

  lemma RereadInRange(t: int, f: Format)
    requires 0 <= t < 0x1_0000_0000 * SECOND
    ensures Reread(t, f) == if f.nanoseconds then t else t - t % 1000
  {
    var q, r := Quotient(t), Rest(t);
    assert 0 <= q < 0x1_0000_0000 && 0 <= r < SECOND && t == q * SECOND + r;
    FitsU32(q);
    if f.nanoseconds {
      FitsU32(r);
    } else {
      FitsU32(r / 1000);
      Thousands(q, r);
    }
  }

  lemma RereadOutOfRange(t: int, f: Format)
    requires !(0 <= t < 0x1_0000_0000 * SECOND)
    ensures Reread(t, f) != t
  {
    if t >= 0 {
      assert 0 <= Rest(t) < SECOND;
    }
  }

  lemma RereadExactly(t: int, f: Format)
    ensures Reread(t, f) == t <==> Representable(t, f)
  {
    if 0 <= t < 0x1_0000_0000 * SECOND {
      RereadInRange(t, f);
    } else {
      RereadOutOfRange(t, f);
    }
  }

  // ---------------------------------------------------------------------- one header, one record

  lemma HeaderSlices(f: Format, rest: seq<byte>)
    ensures (FileHeader(f) + rest)[..4] == WordBytes(Magic(f), f.swap)
    ensures (FileHeader(f) + rest)[20..24] == WordBytes(LINK_TYPE_ETHERNET, f.swap)
  {
  }

  lemma FormatIsRead(f: Format, rest: seq<byte>)
    ensures FormatOf(FileHeader(f) + rest) == Ok(f)
  {
    HeaderSlices(f, rest);
    LinkIsRead(f, FileHeader(f) + rest);
  }

  lemma LinkIsRead(f: Format, b: seq<byte>)
    requires |b| >= FILE_HEADER_BYTES
    requires b[..4] == WordBytes(Magic(f), f.swap)
    requires b[20..24] == WordBytes(LINK_TYPE_ETHERNET, f.swap)
    ensures FormatOf(b) == Ok(f)
  {
    MagicIsRead(f, b);
    WordRoundTrip(LINK_TYPE_ETHERNET, b, 20, f.swap);
  }

  lemma MagicIsRead(f: Format, b: seq<byte>)
    requires |b| >= FILE_HEADER_BYTES
    requires b[..4] == WordBytes(Magic(f), f.swap)
    ensures MagicFormat(WordAt(b, 0, false), WordAt(b, 0, true)) == Some(f)
  {
    WordRoundTrip(Magic(f), b, 0, f.swap);
    if f.swap {
      MagicReversed(f.nanoseconds, b);
    }
  }

  lemma MagicBytes()
    ensures LowBytes(MAGIC_NANOSECONDS, 4) == [0x4D, 0x3C, 0xB2, 0xA1]
    ensures LowBytes(MAGIC_MICROSECONDS, 4) == [0xD4, 0xC3, 0xB2, 0xA1]
  {
    FourLowBytes(MAGIC_NANOSECONDS);
    FourLowBytes(MAGIC_MICROSECONDS);
  }

  /** A magic number in the other byte order is no magic number. */
  lemma MagicReversed(nanoseconds: bool, b: seq<byte>)
    requires |b| >= 4
    requires b[..4] == WordBytes(Magic(Format(true, nanoseconds)), true)
    ensures WordAt(b, 0, false) == if nanoseconds then 0x4D3C_B2A1 else 0xD4C3_B2A1
  {
    MagicBytes();
    assert b[0..4] == [0xA1, 0xB2, if nanoseconds then 0x3C else 0xC3, if nanoseconds then 0x4D else 0xD4];
    ValueOfFour(b[0..4]);
  }

  lemma Quarters(b: seq<byte>, x: seq<byte>, y: seq<byte>, z: seq<byte>)
    requires |x| == |y| == |z| == 4 && |b| >= 16
    requires b[..16] == x + y + z + z
    ensures b[0..4] == x && b[4..8] == y && b[8..12] == z
  {
    var h := b[..16];
    assert b[0..4] == h[0..4] && b[4..8] == h[4..8] && b[8..12] == h[8..12];
  }

  /** The header of a record is read back word by word. */
  lemma HeaderIsRead(b: seq<byte>, seconds: u32, fraction: u32, length: u32, swap: bool)
    requires |b| >= RECORD_HEADER_BYTES
    requires b[..RECORD_HEADER_BYTES] == RecordHeader(seconds, fraction, length, swap)
    ensures WordAt(b, 0, swap) == seconds && WordAt(b, 4, swap) == fraction && WordAt(b, 8, swap) == length
  {
    Quarters(b, WordBytes(seconds, swap), WordBytes(fraction, swap), WordBytes(length, swap));
    WordRoundTrip(seconds, b, 0, swap);
    WordRoundTrip(fraction, b, 4, swap);
    WordRoundTrip(length, b, 8, swap);
  }

  lemma FrontIsRead(seconds: u32, fraction: u32, bytes: seq<byte>, rest: seq<byte>, f: Format)
    requires |bytes| < 0x1_0000_0000
    ensures Records(RecordHeader(seconds, fraction, |bytes|, f.swap) + bytes + rest, f)
         == [Record(TimeOf(seconds, fraction, f.nanoseconds), bytes)] + Records(rest, f)
  {
    var head := RecordHeader(seconds, fraction, |bytes|, f.swap);
    assert (head + bytes + rest)[..RECORD_HEADER_BYTES] == head;
    HeaderIsRead(head + bytes + rest, seconds, fraction, |bytes|, f.swap);
    Parts(head, bytes, rest);
  }

  lemma Parts(head: seq<byte>, bytes: seq<byte>, rest: seq<byte>)
    ensures (head + bytes + rest)[|head|..|head| + |bytes|] == bytes
    ensures (head + bytes + rest)[|head| + |bytes|..] == rest
  {
  }

  lemma RecordIsRead(r: Record, f: Format, rest: seq<byte>)
    requires |r.bytes| < 0x1_0000_0000
    ensures Records(RecordBytes(r, f) + rest, f)
         == [Record(Reread(r.timestampNs, f), r.bytes)] + Records(rest, f)
  {
    FitsU32(|r.bytes|);
    FrontIsRead(ToU32(Quotient(r.timestampNs)), Fraction(r.timestampNs, f.nanoseconds), r.bytes, rest, f);
  }

  lemma CutFrontIsDropped(seconds: u32, fraction: u32, bytes: seq<byte>, f: Format, n: nat)
    requires |bytes| < 0x1_0000_0000
    requires n < RECORD_HEADER_BYTES + |bytes|
    ensures Records((RecordHeader(seconds, fraction, |bytes|, f.swap) + bytes)[..n], f) == []
  {
    var b := (RecordHeader(seconds, fraction, |bytes|, f.swap) + bytes)[..n];
    if n >= RECORD_HEADER_BYTES {
      HeaderIsRead(b, seconds, fraction, |bytes|, f.swap);
    }
  }

  lemma CutRecordIsDropped(r: Record, f: Format, n: nat)
    requires |r.bytes| < 0x1_0000_0000
    requires n < |RecordBytes(r, f)|
    ensures Records(RecordBytes(r, f)[..n], f) == []
  {
    FitsU32(|r.bytes|);
    CutFrontIsDropped(ToU32(Quotient(r.timestampNs)), Fraction(r.timestampNs, f.nanoseconds), r.bytes, f, n);
  }

  // --------------------------------------------------------------------------- the round trip

  lemma RereadFirst(rs: seq<Record>, f: Format)
    requires rs != []
    ensures RereadAll(rs[..1], f) == [Record(Reread(rs[0].timestampNs, f), rs[0].bytes)]
    ensures RereadAll(rs, f) == RereadAll(rs[..1], f) + RereadAll(rs[1..], f)
  {
  }

  lemma {:induction false} RecordsAreRead(rs: seq<Record>, f: Format, tail: seq<byte>)
    requires Sized(rs)
    ensures Records(RecordsBytes(rs, f) + tail, f) == RereadAll(rs, f) + Records(tail, f)
  {
    if rs == [] {
      assert RecordsBytes(rs, f) + tail == tail;
    } else {
      var rest := RecordsBytes(rs[1..], f);
      Associative(RecordBytes(rs[0], f), rest, tail);
      RecordIsRead(rs[0], f, rest + tail);
      RecordsAreRead(rs[1..], f, tail);
      RereadFirst(rs, f);
      Associative(RereadAll(rs[..1], f), RereadAll(rs[1..], f), Records(tail, f));
    }
  }

  lemma FileThenTail(rs: seq<Record>, f: Format, tail: seq<byte>)
    requires Sized(rs)
    ensures Read(FileBytes(rs, f) + tail) == Ok(RereadAll(rs, f) + Records(tail, f))
  {
    var body := RecordsBytes(rs, f) + tail;
    Associative(FileHeader(f), RecordsBytes(rs, f), tail);
    FormatIsRead(f, body);
    HeaderThenBody(FileHeader(f), body, f);
    RecordsAreRead(rs, f, tail);
  }

  lemma HeaderThenBody(header: seq<byte>, body: seq<byte>, f: Format)
    requires |header| == FILE_HEADER_BYTES && FormatOf(header + body) == Ok(f)
    ensures Read(header + body) == Ok(Records(body, f))
  {
    assert (header + body)[FILE_HEADER_BYTES..] == body;
  }

  lemma RereadAllExactly(rs: seq<Record>, f: Format)
    ensures RereadAll(rs, f) == rs <==> AllRepresentable(rs, f)
  {
    forall i | 0 <= i < |rs|
      ensures RereadAll(rs, f)[i] == rs[i] <==> Representable(rs[i].timestampNs, f)
    {
      RereadExactly(rs[i].timestampNs, f);
    }
  }

  lemma {:induction false} ReadRecordsAreSized(b: seq<byte>, f: Format)
    ensures Sized(Records(b, f))
    ensures forall i | 0 <= i < |Records(b, f)| :: Records(b, f)[i].timestampNs >= 0
    decreases |b|
  {
    if WholeRecord(b, f).Some? {
      ReadRecordsAreSized(b[WholeRecord(b, f).value..], f);
    }
  }

  lemma SizedRoundTrip(rs: seq<Record>, f: Format)
    requires Sized(rs)
    ensures Read(FileBytes(rs, f)) == Ok(rs) <==> AllRepresentable(rs, f)
  {
    assert FileBytes(rs, f) + [] == FileBytes(rs, f);
    FileThenTail(rs, f, []);
    assert RereadAll(rs, f) + [] == RereadAll(rs, f);
    RereadAllExactly(rs, f);
  }

  /** In every byte order and unit, a file reads back as what was written exactly when every time and
      every length is one the format can hold. The writer itself refuses none. */
  lemma RoundTrip(rs: seq<Record>, f: Format)
    ensures Read(FileBytes(rs, f)) == Ok(rs) <==> AllRepresentable(rs, f) && Sized(rs)
  {
    if Sized(rs) {
      SizedRoundTrip(rs, f);
    } else {
      FormatIsRead(f, RecordsBytes(rs, f));
      ReadRecordsAreSized(FileBytes(rs, f)[FILE_HEADER_BYTES..], f);
    }
  }

  /** A time before 1970 is written without an error and read back as another one. */
  lemma NegativeTimeIsLost()
    ensures Read(FileBytes([Record(-1, [])], NATIVE)) != Ok([Record(-1, [])])
  {
    var rs := [Record(-1, [])];
    RoundTrip(rs, NATIVE);
    assert !Representable(rs[0].timestampNs, NATIVE);
  }

  /** The byte order of a file changes nothing about what is read. */
  lemma ByteOrderIsInvisible(rs: seq<Record>, nanoseconds: bool)
    requires Sized(rs)
    ensures Read(FileBytes(rs, Format(true, nanoseconds))) == Read(FileBytes(rs, Format(false, nanoseconds)))
  {
    var big, little := Format(true, nanoseconds), Format(false, nanoseconds);
    assert FileBytes(rs, big) + [] == FileBytes(rs, big);
    assert FileBytes(rs, little) + [] == FileBytes(rs, little);
    FileThenTail(rs, big, []);
    FileThenTail(rs, little, []);
    assert RereadAll(rs, big) == RereadAll(rs, little);
  }

  // ------------------------------------------------------------- after a write that failed part-way

  /** Right after a write that the disk took only `n` bytes of, the file reads as every record before
      it. */
  lemma ReadRightAfterFailedWrite(rs: seq<Record>, r: Record, n: nat)
    requires Sized(rs) && AllRepresentable(rs, NATIVE)
    requires |r.bytes| < 0x1_0000_0000
    requires n < |RecordBytes(r, NATIVE)|
    ensures Read(FileBytes(rs, NATIVE) + RecordBytes(r, NATIVE)[..n]) == Ok(rs)
  {
    FileThenTail(rs, NATIVE, RecordBytes(r, NATIVE)[..n]);
    CutRecordIsDropped(r, NATIVE, n);
    RereadAllExactly(rs, NATIVE);
    assert rs + [] == rs;
  }

  /** The reader comes to start a record exactly `n` bytes on. */
  predicate StartsAt(b: seq<byte>, f: Format, n: nat)
    decreases |b|
  {
    n == 0 || (WholeRecord(b, f).Some? && WholeRecord(b, f).value <= n
               && StartsAt(b[WholeRecord(b, f).value..], f, n - WholeRecord(b, f).value))
  }

  /** `x` is what `y` ends in. */
  predicate IsTail(x: seq<Record>, y: seq<Record>) { |x| <= |y| && x == y[|y| - |x|..] }

  lemma TailOfMore(x: seq<Record>, y: seq<Record>, r: Record)
    requires IsTail(x, y)
    ensures IsTail(x, [r] + y)
  {
    var more := [r] + y;
    assert more[|more| - |x|..] == y[|y| - |x|..];
  }

  /** Where the reader starts a record, it reads on as if the file began there. */
  lemma {:induction false} ReadsOnFrom(b: seq<byte>, f: Format, n: nat)
    requires StartsAt(b, f, n)
    ensures n <= |b| && IsTail(Records(b[n..], f), Records(b, f))
    decreases |b|
  {
    if n == 0 {
      assert b[0..] == b;
    } else {
      var size := WholeRecord(b, f).value;
      ReadsOnFrom(b[size..], f, n - size);
      assert b[size..][n - size..] == b[n..];
      TailOfMore(Records(b[n..], f), Records(b[size..], f), FirstRecord(b, f));
    }
  }

  lemma {:induction false} StartsBehind(rs: seq<Record>, f: Format, tail: seq<byte>, n: nat)
    requires Sized(rs)
    ensures StartsAt(RecordsBytes(rs, f) + tail, f, |RecordsBytes(rs, f)| + n) <==> StartsAt(tail, f, n)
    decreases |rs|
  {
    if rs == [] {
      assert RecordsBytes(rs, f) + tail == tail;
    } else {
      var rest := RecordsBytes(rs[1..], f);
      Associative(RecordBytes(rs[0], f), rest, tail);
      StartsBehindOne(rs[0], f, rest + tail, |rest| + n);
      StartsBehind(rs[1..], f, tail, n);
    }
  }

  lemma StartsBehindOne(r: Record, f: Format, rest: seq<byte>, n: nat)
    requires |r.bytes| < 0x1_0000_0000
    ensures StartsAt(RecordBytes(r, f) + rest, f, |RecordBytes(r, f)| + n) <==> StartsAt(rest, f, n)
  {
    WholeIsRead(r, f, rest);
  }

  lemma WholeIsRead(r: Record, f: Format, rest: seq<byte>)
    requires |r.bytes| < 0x1_0000_0000
    ensures WholeRecord(RecordBytes(r, f) + rest, f) == Some(|RecordBytes(r, f)|)
    ensures (RecordBytes(r, f) + rest)[|RecordBytes(r, f)|..] == rest
  {
    FitsU32(|r.bytes|);
    var seconds, fraction := ToU32(Quotient(r.timestampNs)), Fraction(r.timestampNs, f.nanoseconds);
    HeadIsRead(seconds, fraction, r.bytes, rest, f);
  }

  lemma HeadIsRead(seconds: u32, fraction: u32, bytes: seq<byte>, rest: seq<byte>, f: Format)
    requires |bytes| < 0x1_0000_0000
    ensures var b := RecordHeader(seconds, fraction, |bytes|, f.swap) + bytes + rest;
            WholeRecord(b, f) == Some(RECORD_HEADER_BYTES + |bytes|) && b[RECORD_HEADER_BYTES + |bytes|..] == rest
  {
    var head := RecordHeader(seconds, fraction, |bytes|, f.swap);
    assert (head + bytes + rest)[..RECORD_HEADER_BYTES] == head;
    HeaderIsRead(head + bytes + rest, seconds, fraction, |bytes|, f.swap);
    Parts(head, bytes, rest);
  }

  /** No record starts inside the torn one, whatever was written behind it. */
  lemma NoStartInsideTorn(seconds: u32, fraction: u32, bytes: seq<byte>, f: Format, n: nat, later: seq<byte>)
    requires |bytes| < 0x1_0000_0000 && 0 < n < RECORD_HEADER_BYTES + |bytes|
    ensures !StartsAt((RecordHeader(seconds, fraction, |bytes|, f.swap) + bytes)[..n] + later, f, n)
  {
    var b := (RecordHeader(seconds, fraction, |bytes|, f.swap) + bytes)[..n] + later;
    if n >= RECORD_HEADER_BYTES {
      assert b[..RECORD_HEADER_BYTES] == RecordHeader(seconds, fraction, |bytes|, f.swap);
      HeaderIsRead(b, seconds, fraction, |bytes|, f.swap);
    }
  }

  /** The writer stays open after a failed write, and what is written next stands behind the torn record.
      The reader comes to start a record there if and only if the failed write took no byte at all,
      whatever is written. */
  lemma NextWriteIsFoundExactly(rs: seq<Record>, r: Record, n: nat, later: seq<byte>)
    requires Sized(rs) && |r.bytes| < 0x1_0000_0000
    requires n < |RecordBytes(r, NATIVE)|
    ensures StartsAt(RecordsBytes(rs, NATIVE) + (RecordBytes(r, NATIVE)[..n] + later), NATIVE,
                     |RecordsBytes(rs, NATIVE)| + n)
       <==> n == 0
  {
    StartsBehind(rs, NATIVE, RecordBytes(r, NATIVE)[..n] + later, n);
    if n > 0 {
      FitsU32(|r.bytes|);
      NoStartInsideTorn(ToU32(Quotient(r.timestampNs)), Fraction(r.timestampNs, true), r.bytes, NATIVE, n, later);
    }
  }

  /** When it took none, every later write is read back. */
  lemma WritesAfterEmptyFailureAreRead(rs: seq<Record>, r: Record, later: seq<Record>)
    requires Sized(rs + later) && AllRepresentable(rs + later, NATIVE)
    ensures Read(FileBytes(rs, NATIVE) + RecordBytes(r, NATIVE)[..0] + RecordsBytes(later, NATIVE)) == Ok(rs + later)
  {
    assert forall i | 0 <= i < |rs| :: rs[i] == (rs + later)[i];
    assert forall i | 0 <= i < |later| :: later[i] == (rs + later)[|rs| + i];
    assert FileBytes(rs, NATIVE) + RecordBytes(r, NATIVE)[..0] == FileBytes(rs, NATIVE);
    FileThenTail(rs, NATIVE, RecordsBytes(later, NATIVE));
    assert RecordsBytes(later, NATIVE) + [] == RecordsBytes(later, NATIVE);
    RecordsAreRead(later, NATIVE, []);
    assert RereadAll(later, NATIVE) + [] == RereadAll(later, NATIVE);
    RereadAllExactly(rs, NATIVE);
    RereadAllExactly(later, NATIVE);
  }

  /** What is read from a torn record that has its header and `k` bytes of its frame, and from the bytes
      behind it: these complete the frame, and the rest is read on from there. */
  function Swallowed(timestampNs: int, bytes: seq<byte>, k: nat, later: seq<byte>): seq<Record>
    requires k < |bytes|
  {
    var missing := |bytes| - k;
    if |later| < missing then
      []
    else
      [Record(timestampNs, bytes[..k] + later[..missing])] + Records(later[missing..], NATIVE)
  }

  lemma CompletedFrom(head: seq<byte>, x: seq<byte>, later: seq<byte>, n: nat)
    requires n <= |later|
    ensures head + x + later == head + (x + later[..n]) + later[n..]
  {
  }

  lemma SwallowedIs(time: int, bytes: seq<byte>, k: nat, later: seq<byte>, made: seq<byte>, rest: seq<byte>)
    requires k < |bytes| && |later| >= |bytes| - k
    requires made == bytes[..k] + later[..|bytes| - k] && rest == later[|bytes| - k..]
    ensures Swallowed(time, bytes, k, later) == [Record(time, made)] + Records(rest, NATIVE)
  {
  }

  lemma FrontOf(b: seq<byte>, seconds: u32, fraction: u32, made: seq<byte>, rest: seq<byte>)
    requires |made| < 0x1_0000_0000
    requires b == RecordHeader(seconds, fraction, |made|, false) + made + rest
    ensures Records(b, NATIVE) == [Record(TimeOf(seconds, fraction, true), made)] + Records(rest, NATIVE)
  {
    FrontIsRead(seconds, fraction, made, rest, NATIVE);
  }

  lemma TornStaysShort(head: seq<byte>, seconds: u32, fraction: u32, bytes: seq<byte>, k: nat, later: seq<byte>)
    requires k < |bytes| < 0x1_0000_0000 && |later| < |bytes| - k
    requires head == RecordHeader(seconds, fraction, |bytes|, false)
    ensures Records(head + bytes[..k] + later, NATIVE) == []
  {
    var b := head + bytes[..k] + later;
    assert b[..RECORD_HEADER_BYTES] == head;
    HeaderIsRead(b, seconds, fraction, |bytes|, false);
  }

  lemma TornIsRead(head: seq<byte>, seconds: u32, fraction: u32, bytes: seq<byte>, k: nat, later: seq<byte>)
    requires k < |bytes| < 0x1_0000_0000
    requires head == RecordHeader(seconds, fraction, |bytes|, false)
    ensures Records((head + bytes)[..RECORD_HEADER_BYTES + k] + later, NATIVE)
         == Swallowed(TimeOf(seconds, fraction, true), bytes, k, later)
  {
    assert (head + bytes)[..RECORD_HEADER_BYTES + k] == head + bytes[..k];
    if |later| < |bytes| - k {
      TornStaysShort(head, seconds, fraction, bytes, k, later);
    } else {
      var made, rest := bytes[..k] + later[..|bytes| - k], later[|bytes| - k..];
      CompletedFrom(head, bytes[..k], later, |bytes| - k);
      FrontOf(head + bytes[..k] + later, seconds, fraction, made, rest);
      SwallowedIs(TimeOf(seconds, fraction, true), bytes, k, later, made, rest);
    }
  }

  /** When the failed write took the whole header, the first bytes written later complete the torn frame:
      a record nobody captured is read, or nothing more at all while they are too few. */
  lemma TornRecordSwallowsLaterBytes(rs: seq<Record>, r: Record, k: nat, later: seq<byte>)
    requires Sized(rs) && AllRepresentable(rs, NATIVE) && k < |r.bytes| < 0x1_0000_0000
    ensures Read(FileBytes(rs, NATIVE) + (RecordBytes(r, NATIVE)[..RECORD_HEADER_BYTES + k] + later))
         == Ok(rs + Swallowed(Reread(r.timestampNs, NATIVE), r.bytes, k, later))
  {
    FileThenTail(rs, NATIVE, RecordBytes(r, NATIVE)[..RECORD_HEADER_BYTES + k] + later);
    RereadAllExactly(rs, NATIVE);
    FitsU32(|r.bytes|);
    var seconds, fraction := ToU32(Quotient(r.timestampNs)), Fraction(r.timestampNs, true);
    TornIsRead(RecordHeader(seconds, fraction, |r.bytes|, false), seconds, fraction, r.bytes, k, later);
  }

  /** What is read from a header, whoever wrote its bytes, and from the bytes behind it. */
  function ReadBehind(head: seq<byte>, rest: seq<byte>): seq<Record>
    requires |head| == RECORD_HEADER_BYTES
  {
    var length := WordAt(head, 8, false);
    if |rest| < length then
      []
    else
      [Record(TimeOf(WordAt(head, 0, false), WordAt(head, 4, false), true), rest[..length])]
      + Records(rest[length..], NATIVE)
  }

  lemma SameHeader(head: seq<byte>, rest: seq<byte>, at: nat)
    requires at + 4 <= |head|
    ensures WordAt(head + rest, at, false) == WordAt(head, at, false)
  {
    assert (head + rest)[at..at + 4] == head[at..at + 4];
  }

  lemma HeaderThenRest(head: seq<byte>, rest: seq<byte>)
    requires |head| == RECORD_HEADER_BYTES
    ensures Records(head + rest, NATIVE) == ReadBehind(head, rest)
  {
    SameHeader(head, rest, 0);
    SameHeader(head, rest, 4);
    SameHeader(head, rest, 8);
    var length := WordAt(head, 8, false);
    if length <= |rest| {
      assert (head + rest)[|head|..|head| + length] == rest[..length];
      assert (head + rest)[|head| + length..] == rest[length..];
    }
  }

  /** What is read from a part of a header and the bytes behind it: these complete the header. */
  function HeaderCompleted(torn: seq<byte>, later: seq<byte>): seq<Record>
    requires |torn| < RECORD_HEADER_BYTES
  {
    var missing := RECORD_HEADER_BYTES - |torn|;
    if |later| < missing then [] else ReadBehind(torn + later[..missing], later[missing..])
  }

  lemma TornHeaderIsRead(torn: seq<byte>, later: seq<byte>)
    requires |torn| < RECORD_HEADER_BYTES
    ensures Records(torn + later, NATIVE) == HeaderCompleted(torn, later)
  {
    var missing := RECORD_HEADER_BYTES - |torn|;
    if |later| >= missing {
      assert torn + later == torn + later[..missing] + later[missing..];
      HeaderThenRest(torn + later[..missing], later[missing..]);
    }
  }

  /** When the failed write took `n` bytes and not the whole header, the first bytes written later complete
      the header. Its length and time are made of both, and reading goes on by them; while the bytes are
      too few for a header, nothing more is read. */
  lemma TornHeaderIsCompleted(rs: seq<Record>, r: Record, n: nat, later: seq<byte>)
    requires Sized(rs) && AllRepresentable(rs, NATIVE) && n < RECORD_HEADER_BYTES
    ensures Read(FileBytes(rs, NATIVE) + (RecordBytes(r, NATIVE)[..n] + later))
         == Ok(rs + HeaderCompleted(RecordBytes(r, NATIVE)[..n], later))
  {
    var torn := RecordBytes(r, NATIVE)[..n];
    FileThenTail(rs, NATIVE, torn + later);
    RereadAllExactly(rs, NATIVE);
    TornHeaderIsRead(torn, later);
  }

  /** The header of a four-byte frame with an empty frame written behind it. */
  const TORN: Record := Record(0, [7, 7, 7, 7])
  const NEXT: Record := Record(5, [])

  /** So an accepted record can vanish: what is read is one frame, made of the second one's header. */
  lemma AcceptedRecordVanishes()
    ensures Read(FileBytes([], NATIVE) + (RecordBytes(TORN, NATIVE)[..RECORD_HEADER_BYTES] + RecordBytes(NEXT, NATIVE)))
         == Ok([Record(0, RecordBytes(NEXT, NATIVE)[..4])])
  {
    var later := RecordBytes(NEXT, NATIVE);
    TornRecordSwallowsLaterBytes([], TORN, 0, later);
    RereadExactly(0, NATIVE);
    SwallowsFour(TORN.bytes, later);
  }

  lemma SwallowsFour(bytes: seq<byte>, later: seq<byte>)
    requires |bytes| == 4 && |later| == 16
    ensures [] + Swallowed(0, bytes, 0, later) == [Record(0, later[..4])]
  {
    assert bytes[..0] + later[..4] == later[..4];
    assert Records(later[4..], NATIVE) == [];
  }

  // ----------------------------------------------------------------- any file that ends early

  /** The bytes that records take in a file. */
  function SizeOf(rs: seq<Record>): nat {
    if rs == [] then 0 else RECORD_HEADER_BYTES + |rs[0].bytes| + SizeOf(rs[1..])
  }

  /** `part` is exactly the records of `all` that end within the first `n` bytes. */
  predicate EndsWithin(part: seq<Record>, all: seq<Record>, n: nat) {
    && part <= all
    && SizeOf(part) <= n
    && (part == all || n < SizeOf(all[..|part| + 1]))
  }

  lemma EndsWithinNext(part: seq<Record>, all: seq<Record>, n: nat, r: Record)
    requires EndsWithin(part, all, n)
    ensures EndsWithin([r] + part, [r] + all, n + RECORD_HEADER_BYTES + |r.bytes|)
  {
    assert ([r] + part)[1..] == part;
    if part != all {
      var next := ([r] + all)[..|part| + 2];
      assert next == [r] + all[..|part| + 1];
      assert next[1..] == all[..|part| + 1];
    }
  }

  lemma CutBeforeFirst(b: seq<byte>, n: nat, f: Format)
    requires n <= |b|
    requires WholeRecord(b, f).Some? ==> n < WholeRecord(b, f).value
    ensures Records(b[..n], f) == [] && EndsWithin([], Records(b, f), n)
  {
    var cut := b[..n];
    if n >= RECORD_HEADER_BYTES {
      assert cut[8..12] == b[8..12];
    }
    if WholeRecord(b, f).Some? {
      var first := Records(b, f)[..1];
      assert first == [FirstRecord(b, f)] && first[1..] == [];
    }
  }

  lemma SameFirst(b: seq<byte>, n: nat, f: Format)
    requires WholeRecord(b, f).Some? && WholeRecord(b, f).value <= n <= |b|
    ensures WholeRecord(b[..n], f) == WholeRecord(b, f)
    ensures FirstRecord(b[..n], f) == FirstRecord(b, f)
  {
    var cut, size := b[..n], WholeRecord(b, f).value;
    assert cut[0..4] == b[0..4] && cut[4..8] == b[4..8] && cut[8..12] == b[8..12];
    assert cut[RECORD_HEADER_BYTES..size] == b[RECORD_HEADER_BYTES..size];
  }

  lemma {:induction false} CutRecords(b: seq<byte>, n: nat, f: Format)
    requires n <= |b|
    ensures EndsWithin(Records(b[..n], f), Records(b, f), n)
    decreases |b|
  {
    var whole := WholeRecord(b, f);
    if whole.None? || n < whole.value {
      CutBeforeFirst(b, n, f);
    } else {
      var cut, size := b[..n], whole.value;
      SameFirst(b, n, f);
      assert cut[size..] == b[size..][..n - size];
      CutRecords(b[size..], n - size, f);
      EndsWithinNext(Records(cut[size..], f), Records(b[size..], f), n - size, FirstRecord(b, f));
    }
  }

  /** Cutting any readable file anywhere behind its header keeps exactly the records that end
      before the cut, and never turns it into an error. */
  lemma Truncation(bytes: seq<byte>, n: nat)
    requires FILE_HEADER_BYTES <= n <= |bytes|
    requires Read(bytes).Ok?
    ensures Read(bytes[..n]).Ok?
    ensures EndsWithin(Read(bytes[..n]).value, Read(bytes).value, n - FILE_HEADER_BYTES)
  {
    var cut := bytes[..n];
    assert FormatOf(cut) == FormatOf(bytes) by {
      assert cut[0..4] == bytes[0..4] && cut[20..24] == bytes[20..24];
    }
    assert cut[FILE_HEADER_BYTES..] == bytes[FILE_HEADER_BYTES..][..n - FILE_HEADER_BYTES];
    CutRecords(bytes[FILE_HEADER_BYTES..], n - FILE_HEADER_BYTES, FormatOf(bytes).value);
  }

  // -------------------------------------------------------------------------------------- copies

  /** Writing out again what was read from any file loses nothing exactly when no time in it lies
      beyond the last one the seconds field can express. */
  lemma CopyIsExact(bytes: seq<byte>)
    requires Read(bytes).Ok?
    ensures var rs := Read(bytes).value;
            Read(FileBytes(rs, NATIVE)) == Ok(rs) <==>
            forall i | 0 <= i < |rs| :: rs[i].timestampNs < 0x1_0000_0000 * SECOND
  {
    ReadRecordsAreSized(bytes[FILE_HEADER_BYTES..], FormatOf(bytes).value);
    RoundTrip(Read(bytes).value, NATIVE);
  }
}
