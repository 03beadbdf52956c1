/** Which files the pcap reader takes and why it refuses the others, byte by byte, and the bytes the
    writer leaves. */
module PcapRefusals {
  import opened Bytes
  import opened Pcap
  import opened PcapLaws

  // ------------------------------------------------------------------------------ the file header

  const LITTLE_MICROSECONDS: seq<byte> := [0xD4, 0xC3, 0xB2, 0xA1]
  const LITTLE_NANOSECONDS: seq<byte> := [0x4D, 0x3C, 0xB2, 0xA1]
  const BIG_MICROSECONDS: seq<byte> := [0xA1, 0xB2, 0xC3, 0xD4]
  const BIG_NANOSECONDS: seq<byte> := [0xA1, 0xB2, 0x3C, 0x4D]

  predicate Little(b: seq<byte>) { LITTLE_MICROSECONDS <= b || LITTLE_NANOSECONDS <= b }

  predicate Big(b: seq<byte>) { BIG_MICROSECONDS <= b || BIG_NANOSECONDS <= b }

  predicate Nanoseconds(b: seq<byte>) { LITTLE_NANOSECONDS <= b || BIG_NANOSECONDS <= b }

  /** The link type is 1 in the byte order of the file. */
  predicate Ethernet(b: seq<byte>)
    requires |b| >= 24
  {
    b[20..24] == if Big(b) then [0, 0, 0, 1] else [1, 0, 0, 0]
  }

  /** A word is read exactly from its own bytes. */
  lemma WordIsItsBytes(b: seq<byte>, at: nat, v: u32, swap: bool)
    requires at + 4 <= |b|
    ensures WordAt(b, at, swap) == v <==> b[at..at + 4] == WordBytes(v, swap)
  {
    var four := b[at..at + 4];
    if WordAt(b, at, swap) == v {
      LowBytesOfValue(if swap then Reversed(four) else four);
      assert Reversed(Reversed(four)) == four;
    }
    if four == WordBytes(v, swap) {
      WordRoundTrip(v, b, at, swap);
    }
  }

  lemma MagicWords()
    ensures WordBytes(MAGIC_MICROSECONDS, false) == LITTLE_MICROSECONDS
    ensures WordBytes(MAGIC_NANOSECONDS, false) == LITTLE_NANOSECONDS
    ensures WordBytes(MAGIC_MICROSECONDS, true) == BIG_MICROSECONDS
    ensures WordBytes(MAGIC_NANOSECONDS, true) == BIG_NANOSECONDS
  {
    MagicBytes();
  }

  lemma OneWord()
    ensures WordBytes(LINK_TYPE_ETHERNET, false) == [1, 0, 0, 0] && WordBytes(LINK_TYPE_ETHERNET, true) == [0, 0, 0, 1]
  {
    FourLowBytes(LINK_TYPE_ETHERNET);
  }

  lemma BeginsWith(b: seq<byte>, four: seq<byte>)
    requires |b| >= 4 && |four| == 4
    ensures four <= b <==> b[0..4] == four
  {
  }

  lemma MagicIsItsBytes(b: seq<byte>)
    requires |b| >= 24
    ensures MagicFormat(WordAt(b, 0, false), WordAt(b, 0, true)) ==
      if Little(b) || Big(b) then Some(Format(Big(b), Nanoseconds(b))) else None
  {
    MagicWords();
    WordIsItsBytes(b, 0, MAGIC_MICROSECONDS, false);
    WordIsItsBytes(b, 0, MAGIC_NANOSECONDS, false);
    WordIsItsBytes(b, 0, MAGIC_MICROSECONDS, true);
    WordIsItsBytes(b, 0, MAGIC_NANOSECONDS, true);
    BeginsWith(b, LITTLE_MICROSECONDS);
    BeginsWith(b, LITTLE_NANOSECONDS);
    BeginsWith(b, BIG_MICROSECONDS);
    BeginsWith(b, BIG_NANOSECONDS);
  }

  lemma FormatIsItsBytes(b: seq<byte>)
    requires |b| >= 24
    ensures FormatOf(b) ==
      if !Little(b) && !Big(b) then Err(NotPcap)
      else if !Ethernet(b) then Err(NotEthernet)
      else Ok(Format(Big(b), Nanoseconds(b)))
  {
    MagicIsItsBytes(b);
    OneWord();
    WordIsItsBytes(b, 20, LINK_TYPE_ETHERNET, Big(b));
  }

  /** Every file is refused for exactly one reason or read: below 24 bytes it is too short, without one of
      the four magic sequences it is no pcap file, with a link type other than 1 it is no Ethernet capture;
      and otherwise its records are read in the byte order and unit the first four bytes name. */
  lemma RefusedExactlyFor(b: seq<byte>)
    ensures Read(b) == Err(TooShort) <==> |b| < 24
    ensures Read(b) == Err(NotPcap) <==> |b| >= 24 && !Little(b) && !Big(b)
    ensures Read(b) == Err(NotEthernet) <==> |b| >= 24 && (Little(b) || Big(b)) && !Ethernet(b)
    ensures Read(b).Ok? ==> Read(b) == Ok(Records(b[24..], Format(Big(b), Nanoseconds(b))))
  {
    if |b| >= 24 {
      FormatIsItsBytes(b);
    }
  }

  // ------------------------------------------------------------------------- what is on the disk

  lemma LowWords()
    ensures LowBytes(SNAP_LENGTH, 4) == [0xFF, 0xFF, 0, 0] && LowBytes(0, 4) == [0, 0, 0, 0]
  {
    FourLowBytes(SNAP_LENGTH);
    FourLowBytes(0);
  }

  /** The header the writer leaves, byte by byte. */
  lemma HeaderOnDisk()
    ensures FileHeader(NATIVE) ==
      [0x4D, 0x3C, 0xB2, 0xA1, 2, 0, 4, 0, 0, 0, 0, 0, 0, 0, 0, 0, 0xFF, 0xFF, 0, 0, 1, 0, 0, 0]
  {
    MagicBytes();
    LowWords();
    OneWord();
  }

  /** A record on disk: the seconds, the nanoseconds within the second, and the length twice, each four
      bytes with the low byte first, and the frame. */
  lemma RecordOnDisk(t: int, bytes: seq<byte>)
    requires 0 <= t < 0x1_0000_0000 * 1_000_000_000 && |bytes| < 0x1_0000_0000
    ensures var b := RecordBytes(Record(t, bytes), NATIVE);
      && |b| == 16 + |bytes| && b[16..] == bytes
      && Value(b[0..4]) == t / 1_000_000_000 && Value(b[4..8]) == t % 1_000_000_000
      && Value(b[8..12]) == |bytes| && Value(b[12..16]) == |bytes|
  {
    var b := RecordBytes(Record(t, bytes), NATIVE);
    var seconds, fraction, length: nat := t / 1_000_000_000, t % 1_000_000_000, |bytes|;
    FitsU32(seconds);
    FitsU32(fraction);
    FitsU32(length);
    Powers();
    ValueOfLowBytes(seconds, 4);
    ValueOfLowBytes(fraction, 4);
    ValueOfLowBytes(length, 4);
    FourWords(b, LowBytes(seconds, 4), LowBytes(fraction, 4), LowBytes(length, 4), bytes);
  }

  lemma FourWords(b: seq<byte>, x: seq<byte>, y: seq<byte>, z: seq<byte>, bytes: seq<byte>)
    requires |x| == 4 && |y| == 4 && |z| == 4 && b == x + y + z + z + bytes
    ensures b[0..4] == x && b[4..8] == y && b[8..12] == z && b[12..16] == z && b[16..] == bytes
  {
  }
}
