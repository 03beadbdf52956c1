/** The pcap file format: the writer, the reader of both byte orders and both time units, and files
    that end in the middle of a record. */
module Pcap {
  import opened Bytes

  const MAGIC_MICROSECONDS: u32 := 0xA1B2C3D4
  const MAGIC_NANOSECONDS: u32 := 0xA1B23C4D
  const LINK_TYPE_ETHERNET: u32 := 1
  const SNAP_LENGTH: u32 := 65535
  const FILE_HEADER_BYTES: nat := 24
  const RECORD_HEADER_BYTES: nat := 16
  const SECOND: int := 1_000_000_000

  datatype Record = Record(timestampNs: int, bytes: seq<byte>)

  datatype Error = TooShort | NotPcap | NotEthernet

  /** How a file writes its words and its times. */
  datatype Format = Format(swap: bool, nanoseconds: bool)

  /** What the writer produces. */
  const NATIVE: Format := Format(false, true)

  // ------------------------------------------------------------------------------------ words

  function Reversed(b: seq<byte>): (r: seq<byte>)
    requires |b| == 4
    ensures |r| == 4
  {
    [b[3], b[2], b[1], b[0]]
  }

  /** The bytes of a word in a file's byte order. */
  function WordBytes(v: u32, swap: bool): (b: seq<byte>)
    ensures |b| == 4
  {
    if swap then Reversed(LowBytes(v, 4)) else LowBytes(v, 4)
  }

  /** The word at `at` in a file's byte order. */
  function WordAt(b: seq<byte>, at: nat, swap: bool): (v: u32)
    requires at + 4 <= |b|
  {
    var four := b[at..at + 4];
    var w := if swap then Reversed(four) else four;
    ValueIsBounded(w);
    Powers();
    Value(w)
  }

  /** A word is read back from anywhere in a file of its byte order. */
  lemma WordRoundTrip(v: u32, b: seq<byte>, at: nat, swap: bool)
    requires at + 4 <= |b| && b[at..at + 4] == WordBytes(v, swap)
    ensures WordAt(b, at, swap) == v
  {
    Powers();
    ValueOfLowBytes(v, 4);
    assert Reversed(Reversed(LowBytes(v, 4))) == LowBytes(v, 4);
  }

  /** putU32: the shifts are divisions by powers of two, the casts remainders. */
  method PutU32(v: u32) returns (b: seq<byte>)
    ensures b == WordBytes(v, false)
  {
    b := [v % 256, v / 0x100 % 256, v / 0x1_0000 % 256, v / 0x100_0000 % 256];
    FourLowBytes(v);
  }

  lemma FourLowBytes(v: u32)
    ensures LowBytes(v, 4) == [v % 256, v / 0x100 % 256, v / 0x1_0000 % 256, v / 0x100_0000 % 256]
  {
    assert v / 256 / 256 == v / 0x1_0000 && v / 0x1_0000 / 256 == v / 0x100_0000;
    assert LowBytes(v / 0x100_0000, 1) == [v / 0x100_0000 % 256];
    assert LowBytes(v / 0x1_0000, 2) == [v / 0x1_0000 % 256] + LowBytes(v / 0x100_0000, 1);
    assert LowBytes(v / 256, 3) == [v / 256 % 256] + LowBytes(v / 0x1_0000, 2);
  }

  /** getU32: the word in the machine's order, then its four bytes exchanged by masks and shifts. */
  method GetU32(b: seq<byte>, at: nat, swap: bool) returns (v: u32)
    requires at + 4 <= |b|
    ensures v == WordAt(b, at, swap)
  {
    var four := b[at..at + 4];
    ValueOfFour(four);
    v := Shifted(b[at], b[at + 1], b[at + 2], b[at + 3]);
    if swap {
      ValueOfFour(Reversed(four));
      MaskedAndShifted(b[at], b[at + 1], b[at + 2], b[at + 3]);
      v := Shifted(v / 0x100_0000, v % 0x100_0000 / 0x1_0000, v % 0x1_0000 / 0x100, v % 0x100);
    }
  }

  lemma MaskedAndShifted(b0: byte, b1: byte, b2: byte, b3: byte)
    ensures var v := Shifted(b0, b1, b2, b3);
            && v % 0x100 == b0 && v % 0x1_0000 / 0x100 == b1
            && v % 0x100_0000 / 0x1_0000 == b2 && v / 0x100_0000 == b3
  {
    var x0: int, x1: int, x2: int, x3: int := b0, b1, b2, b3;
    Parted(x0, x1 + 0x100 * x2 + 0x1_0000 * x3, 0x100);
    Parted(x0 + 0x100 * x1, x2 + 0x100 * x3, 0x1_0000);
    Parted(x0, x1, 0x100);
    Parted(x0 + 0x100 * x1 + 0x1_0000 * x2, x3, 0x100_0000);
    Parted(x0 + 0x100 * x1, x2, 0x1_0000);
  }

  lemma Parted(low: nat, high: nat, unit: nat)
    requires low < unit
    requires unit == 0x100 || unit == 0x1_0000 || unit == 0x100_0000
    ensures (low + unit * high) % unit == low && (low + unit * high) / unit == high
  {
  }

  // ------------------------------------------------------------------------------- the writer

  /** C++ division and remainder of a signed integer. */
  function Quotient(n: int): int { if n >= 0 then n / SECOND else -((-n) / SECOND) }

  function Rest(n: int): int { n - Quotient(n) * SECOND }

  /** The cast to uint32_t. */
  function ToU32(n: int): u32 { n % 0x1_0000_0000 }

  /** The fraction of a second in a file's unit. */
  function Fraction(timestampNs: int, nanoseconds: bool): u32 {
    ToU32(if nanoseconds then Rest(timestampNs) else Rest(timestampNs) / 1000)
  }

  function RecordHeader(seconds: u32, fraction: u32, length: u32, swap: bool): (b: seq<byte>)
    ensures |b| == RECORD_HEADER_BYTES
  {
    WordBytes(seconds, swap) + WordBytes(fraction, swap) + WordBytes(length, swap) + WordBytes(length, swap)
  }

  /** A frame and its header, as a writer of the format produces them. */
  function RecordBytes(r: Record, f: Format): (b: seq<byte>)
    ensures |b| == RECORD_HEADER_BYTES + |r.bytes|
  {
    RecordHeader(ToU32(Quotient(r.timestampNs)), Fraction(r.timestampNs, f.nanoseconds), ToU32(|r.bytes|), f.swap)
    + r.bytes
  }

  function Magic(f: Format): u32 { if f.nanoseconds then MAGIC_NANOSECONDS else MAGIC_MICROSECONDS }

  /** The version is two 16-bit words. */
  function VersionBytes(f: Format): (b: seq<byte>)
    ensures |b| == 4
  {
    if f.swap then [0, 2, 0, 4] else [2, 0, 4, 0]
  }

  function FileHeader(f: Format): (b: seq<byte>)
    ensures |b| == FILE_HEADER_BYTES
  {
    WordBytes(Magic(f), f.swap) + VersionBytes(f) + WordBytes(0, f.swap) + WordBytes(0, f.swap)
    + WordBytes(SNAP_LENGTH, f.swap) + WordBytes(LINK_TYPE_ETHERNET, f.swap)
  }

  function RecordsBytes(rs: seq<Record>, f: Format): seq<byte> {
    if rs == [] then [] else RecordBytes(rs[0], f) + RecordsBytes(rs[1..], f)
  }

  function FileBytes(rs: seq<Record>, f: Format): seq<byte> { FileHeader(f) + RecordsBytes(rs, f) }

  lemma {:induction false} RecordsBytesSnoc(rs: seq<Record>, r: Record, f: Format)
    ensures RecordsBytes(rs + [r], f) == RecordsBytes(rs, f) + RecordBytes(r, f)
  {
    if rs == [] {
      assert rs + [r] == [r] && [r][1..] == [];
    } else {
      assert (rs + [r])[0] == rs[0] && (rs + [r])[1..] == rs[1..] + [r];
      RecordsBytesSnoc(rs[1..], r, f);
      assert RecordBytes(rs[0], f) + (RecordsBytes(rs[1..], f) + RecordBytes(r, f))
          == RecordBytes(rs[0], f) + RecordsBytes(rs[1..], f) + RecordBytes(r, f);
    }
  }

  /** The writer. `file` is what is on disk; `accepted` is how many bytes of a write the disk takes. */
  class PcapWriter {
    var open: bool
    var file: seq<byte>
    ghost var records: seq<Record>

    /** The file on disk is exactly the records written since it was opened. */
    ghost predicate Valid()
      reads this
    {
      file == FileBytes(records, NATIVE)
    }

    constructor ()
      ensures !open && file == []
    {
      open, file, records := false, [], [];
    }

    method Open(creates: bool, accepted: nat) returns (ok: bool)
      modifies this
      ensures open == ok == (creates && accepted >= FILE_HEADER_BYTES)
      ensures ok ==> Valid() && records == []
    {
      Close();
      if !creates {
        return false;
      }
      var magic := PutU32(MAGIC_NANOSECONDS);
      var zero := PutU32(0);
      var snap := PutU32(SNAP_LENGTH);
      var link := PutU32(LINK_TYPE_ETHERNET);
      var header := magic + [2, 0] + [4, 0] + zero + zero + snap + link;
      assert header == FileHeader(NATIVE);
      open, file, records := true, header[..Min(accepted, |header|)], [];
      assert FileBytes([], NATIVE) == header;
      if accepted < |header| {
        Close();
        return false;
      }
      ok := true;
    }

    /** Appends one frame; a write the disk does not take whole leaves its first bytes in the file. */
    method Write(timestampNs: int, bytes: seq<byte>, accepted: nat) returns (ok: bool)
      modifies this
      ensures open == old(open)
      ensures ok == (open && accepted >= RECORD_HEADER_BYTES + |bytes|)
      ensures ok && old(Valid()) ==> Valid() && records == old(records) + [Record(timestampNs, bytes)]
      ensures ok ==> file == old(file) + RecordBytes(Record(timestampNs, bytes), NATIVE)
      ensures open && !ok ==> file == old(file) + RecordBytes(Record(timestampNs, bytes), NATIVE)[..accepted]
      ensures !open ==> file == old(file)
    {
      if !open {
        return false;
      }
      var seconds := PutU32(ToU32(Quotient(timestampNs)));
      var fraction := PutU32(ToU32(Rest(timestampNs)));
      var length := PutU32(ToU32(|bytes|));
      var header := seconds + fraction + length + length;
      ghost var r := Record(timestampNs, bytes);
      assert header + bytes == RecordBytes(r, NATIVE);
      if accepted < |header| {
        file := file + header[..accepted];
        assert header[..accepted] == RecordBytes(r, NATIVE)[..accepted];
        return false;
      }
      var left := Min(accepted - |header|, |bytes|);
      WrittenInTwo(file, header, bytes, left);
      file := file + header + bytes[..left];
      if left < |bytes| {
        return false;
      }
      assert file == old(file) + RecordBytes(r, NATIVE);
      RecordsBytesSnoc(records, r, NATIVE);
      assert FileBytes(records, NATIVE) + RecordBytes(r, NATIVE) == FileBytes(records + [r], NATIVE);
      records := records + [r];
      ok := true;
    }

    method Close()
      modifies this
      ensures !open && file == old(file) && records == old(records)
    {
      open := false;
    }
  }

  lemma WrittenInTwo(file: seq<byte>, header: seq<byte>, bytes: seq<byte>, n: nat)
    requires n <= |bytes|
    ensures file + header + bytes[..n] == file + (header + bytes)[..|header| + n]
    ensures n == |bytes| ==> (header + bytes)[..|header| + n] == header + bytes
  {
  }

  // ------------------------------------------------------------------------------- the reader

  /** The file's format, or why it cannot be read. */
  function FormatOf(bytes: seq<byte>): Result<Format, Error> {
    if |bytes| < FILE_HEADER_BYTES then
      Err(TooShort)
    else
      var f := MagicFormat(WordAt(bytes, 0, false), WordAt(bytes, 0, true));
      if f.None? then
        Err(NotPcap)
      else if WordAt(bytes, 20, f.value.swap) != LINK_TYPE_ETHERNET then
        Err(NotEthernet)
      else
        Ok(f.value)
  }

  function MagicFormat(plain: u32, swapped: u32): Option<Format> {
    if plain == MAGIC_MICROSECONDS || plain == MAGIC_NANOSECONDS then
      Some(Format(false, plain == MAGIC_NANOSECONDS))
    else if swapped == MAGIC_MICROSECONDS || swapped == MAGIC_NANOSECONDS then
      Some(Format(true, swapped == MAGIC_NANOSECONDS))
    else
      None
  }

  function TimeOf(seconds: u32, fraction: u32, nanoseconds: bool): int {
    seconds * SECOND + if nanoseconds then fraction else fraction * 1000
  }

  /** How many bytes the record at the front of `b` takes, header and all, when it is whole. */
  function WholeRecord(b: seq<byte>, f: Format): (n: Option<nat>)
    ensures n.Some? ==> RECORD_HEADER_BYTES <= n.value <= |b|
  {
    if |b| < RECORD_HEADER_BYTES then
      None
    else
      var n := RECORD_HEADER_BYTES + WordAt(b, 8, f.swap);
      if n <= |b| then Some(n) else None
  }

  function FirstRecord(b: seq<byte>, f: Format): Record
    requires WholeRecord(b, f).Some?
  {
    Record(TimeOf(WordAt(b, 0, f.swap), WordAt(b, 4, f.swap), f.nanoseconds),
           b[RECORD_HEADER_BYTES..WholeRecord(b, f).value])
  }

  /** The whole records at the front of `b`. */
  function Records(b: seq<byte>, f: Format): seq<Record>
    decreases |b|
  {
    if WholeRecord(b, f).None? then
      []
    else
      [FirstRecord(b, f)] + Records(b[WholeRecord(b, f).value..], f)
  }

  function Read(bytes: seq<byte>): Result<seq<Record>, Error> {
    match FormatOf(bytes)
    case Err(e) => Err(e)
    case Ok(f) => Ok(Records(bytes[FILE_HEADER_BYTES..], f))
  }

  /** parsePcap. */
  method ParsePcap(bytes: seq<byte>) returns (r: Result<seq<Record>, Error>)
    ensures r == Read(bytes)
  {
    if |bytes| < FILE_HEADER_BYTES {
      return Err(TooShort);
    }
    var magicAsIs := GetU32(bytes, 0, false);
    var swap, nanoseconds := false, false;
    if magicAsIs == MAGIC_MICROSECONDS || magicAsIs == MAGIC_NANOSECONDS {
      nanoseconds := magicAsIs == MAGIC_NANOSECONDS;
    } else {
      var magicSwapped := GetU32(bytes, 0, true);
      if magicSwapped != MAGIC_MICROSECONDS && magicSwapped != MAGIC_NANOSECONDS {
        return Err(NotPcap);
      }
      swap := true;
      nanoseconds := magicSwapped == MAGIC_NANOSECONDS;
    }
    var link := GetU32(bytes, 20, swap);
    if link != LINK_TYPE_ETHERNET {
      return Err(NotEthernet);
    }
    var records := ParseRecords(bytes, swap, nanoseconds);
    r := Ok(records);
  }

  /** The records read so far and those still ahead of `at` are all there are. */
  ghost predicate StillReads(records: seq<Record>, bytes: seq<byte>, at: nat, f: Format, all: seq<Record>) {
    at <= |bytes| && records + Records(bytes[at..], f) == all
  }

  /** The record loop of parsePcap. */
  method ParseRecords(bytes: seq<byte>, swap: bool, nanoseconds: bool) returns (records: seq<Record>)
    requires |bytes| >= FILE_HEADER_BYTES
    ensures records == Records(bytes[FILE_HEADER_BYTES..], Format(swap, nanoseconds))
  {
    ghost var f := Format(swap, nanoseconds);
    ghost var all := Records(bytes[FILE_HEADER_BYTES..], f);
    var at := FILE_HEADER_BYTES;
    records := [];
    while at + RECORD_HEADER_BYTES <= |bytes|
      invariant StillReads(records, bytes, at, f, all)
      decreases |bytes| - at
    {
      var next := ParseRecord(bytes, at, swap, nanoseconds);
      if next.None? {
        Stopped(records, bytes, at, f, all);
        return;
      }
      WentOn(records, bytes, at, f, all);
      records := records + [next.value];
      at := at + RECORD_HEADER_BYTES + |next.value.bytes|;
    }
    Stopped(records, bytes, at, f, all);
  }

  /** One turn of the record loop: the record at `at`, unless it is cut short. */
  method ParseRecord(bytes: seq<byte>, at: nat, swap: bool, nanoseconds: bool) returns (r: Option<Record>)
    requires at + RECORD_HEADER_BYTES <= |bytes|
    ensures r.Some? <==> WholeRecord(bytes[at..], Format(swap, nanoseconds)).Some?
    ensures r.Some? ==> r.value == FirstRecord(bytes[at..], Format(swap, nanoseconds))
  {
    ghost var b := bytes[at..];
    assert b[0..4] == bytes[at..at + 4] && b[4..8] == bytes[at + 4..at + 8] && b[8..12] == bytes[at + 8..at + 12];
    var seconds := GetU32(bytes, at, swap);
    var fraction := GetU32(bytes, at + 4, swap);
    var captured := GetU32(bytes, at + 8, swap);
    var start := at + RECORD_HEADER_BYTES;
    if start + captured > |bytes| {
      return None;
    }
    assert b[RECORD_HEADER_BYTES..RECORD_HEADER_BYTES + captured] == bytes[start..start + captured];
    r := Some(Record(TimeOf(seconds, fraction, nanoseconds), bytes[start..start + captured]));
  }

  lemma Stopped(records: seq<Record>, bytes: seq<byte>, at: nat, f: Format, all: seq<Record>)
    requires StillReads(records, bytes, at, f, all)
    requires WholeRecord(bytes[at..], f).None?
    ensures records == all
  {
    assert records + [] == records;
  }

  lemma WentOn(records: seq<Record>, bytes: seq<byte>, at: nat, f: Format, all: seq<Record>)
    requires StillReads(records, bytes, at, f, all)
    requires WholeRecord(bytes[at..], f).Some?
    ensures var r := FirstRecord(bytes[at..], f);
            StillReads(records + [r], bytes, at + RECORD_HEADER_BYTES + |r.bytes|, f, all)
  {
    var b, n := bytes[at..], WholeRecord(bytes[at..], f).value;
    assert b[n..] == bytes[at + n..];
    Associative(records, [FirstRecord(b, f)], Records(b[n..], f));
  }

}
