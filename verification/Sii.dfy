/** The content of an SII image, the EEPROM of an EtherCAT slave: its header, and the decoders of
    the categories behind it. */
module Sii {
  import opened Bytes

  type i16 = x: int | -0x8000 <= x < 0x8000

  // ------------------------------------------------------------------------------- field readers

  function RdU8(b: seq<byte>, off: nat): byte { if off < |b| then b[off] else 0 }

  function RdU16(b: seq<byte>, off: nat): u16 { if off + 2 > |b| then 0 else ReadU16(b, off) }

  function ToI16(w: u16): i16 { if w < 0x8000 then w else w - 0x1_0000 }

  function RdI16(b: seq<byte>, off: nat): i16 { ToI16(RdU16(b, off)) }

  function RdU32(b: seq<byte>, off: nat): u32 {
    if off + 4 > |b| then
      0
    else
      ValueIsBounded(b[off..off + 4]);
      Powers();
      Value(b[off..off + 4])
  }

  // --------------------------------------------------------------------------------- the header

  const HEADER_BYTES: nat := 128

  datatype Info = Info(
    pdiControl: u16, pdiConfiguration: u16, syncImpulseLen: u16, pdiConfiguration2: u16,
    configuredStationAlias: u16, checksum: u16,
    vendorId: u32, productCode: u32, revisionNumber: u32, serialNumber: u32,
    bootstrapReceiveMailboxOffset: u16, bootstrapReceiveMailboxSize: u16,
    bootstrapSendMailboxOffset: u16, bootstrapSendMailboxSize: u16,
    standardReceiveMailboxOffset: u16, standardReceiveMailboxSize: u16,
    standardSendMailboxOffset: u16, standardSendMailboxSize: u16,
    mailboxProtocol: u16, size: u16, version: u16)

  function ParseHeader(b: seq<byte>): Info {
    Info(
      RdU16(b, 0), RdU16(b, 2), RdU16(b, 4), RdU16(b, 6),
      RdU16(b, 8), RdU16(b, 14),
      RdU32(b, 16), RdU32(b, 20), RdU32(b, 24), RdU32(b, 28),
      RdU16(b, 40), RdU16(b, 42),
      RdU16(b, 44), RdU16(b, 46),
      RdU16(b, 48), RdU16(b, 50),
      RdU16(b, 52), RdU16(b, 54),
      RdU16(b, 56), RdU16(b, 124), RdU16(b, 126))
  }

  // ------------------------------------------------------------------------------------- strings

  datatype Text = Text(bytes: seq<byte>)

  /** The string at `cursor`, or what there is of it. */
  function TextAt(p: seq<byte>, cursor: nat): Text
    requires cursor < |p|
  {
    Text(p[cursor + 1..cursor + 1 + Min(p[cursor], |p| - cursor - 1)])
  }

  function After(p: seq<byte>, cursor: nat): nat
    requires cursor < |p|
  {
    var len: int := p[cursor];
    cursor + 1 + len
  }

  /** At most `count` strings, each a length and so many bytes. */
  function StringsAt(p: seq<byte>, cursor: nat, count: nat): seq<Text>
    decreases count
  {
    if count == 0 || cursor >= |p| then
      []
    else
      [TextAt(p, cursor)] + StringsAt(p, After(p, cursor), count - 1)
  }

  function Strings(p: seq<byte>): seq<Text> {
    if p == [] then [] else StringsAt(p, 1, p[0])
  }

  method ParseStrings(p: seq<byte>) returns (strings: seq<Text>)
    ensures strings == Strings(p)
  {
    strings := [];
    if p == [] {
      return;
    }
    var count, cursor := p[0], 1;
    for i := 0 to count
      invariant cursor >= 0
      invariant strings + StringsAt(p, cursor, count - i) == Strings(p)
    {
      if cursor >= |p| {
        assert strings + [] == strings;
        return;
      }
      var text := TakeString(p, cursor);
      Associative(strings, [text], StringsAt(p, After(p, cursor), count - i - 1));
      strings := strings + [text];
      cursor := After(p, cursor);
    }
    assert strings + [] == strings;
  }

  method TakeString(p: seq<byte>, cursor: nat) returns (text: Text)
    requires cursor < |p|
    ensures text == TextAt(p, cursor)
  {
    var len, start := p[cursor], cursor + 1;
    var take := Min(len, |p| - start);
    text := Text(p[start..start + take]);
  }

  // ------------------------------------------------------------------------------------- general

  datatype General = General(
    groupIdx: byte, imgIdx: byte, orderIdx: byte, nameIdx: byte,
    coeDetails: byte, foeDetails: byte, eoeDetails: byte, soeChannels: byte,
    ds402Channels: byte, sysmanClass: byte, flags: byte,
    currentOnEBus: i16, physicalPort: u16, physicalMemoryAddress: u16)

  const NO_GENERAL: General := General(0, 0, 0, 0, 0, 0, 0, 0, 0, 0, 0, 0, 0, 0)

  function ParseGeneral(p: seq<byte>): General {
    General(
      RdU8(p, 0), RdU8(p, 1), RdU8(p, 2), RdU8(p, 3),
      RdU8(p, 5), RdU8(p, 6), RdU8(p, 7), RdU8(p, 8),
      RdU8(p, 9), RdU8(p, 10), RdU8(p, 11),
      RdI16(p, 12), RdU16(p, 16), RdU16(p, 18))
  }

  // --------------------------------------------------------------------------------------- FMMUs

  /** One byte per FMMU. */
  method ParseFmmu(p: seq<byte>) returns (fmmus: seq<byte>)
    ensures fmmus == p
  {
    fmmus := [];
    for i := 0 to |p|
      invariant fmmus == p[..i]
    {
      fmmus := fmmus + [RdU8(p, i)];
    }
  }

  // ------------------------------------------------------------------------------- sync managers

  datatype SyncManager = SyncManager(
    physicalStartAddress: u16, length: u16, controlRegister: byte, statusRegister: byte,
    enableSyncManager: byte, syncManagerType: byte)

  function SyncManagerAt(p: seq<byte>, i: nat): SyncManager {
    SyncManager(RdU16(p, i), RdU16(p, i + 2), RdU8(p, i + 4), RdU8(p, i + 5), RdU8(p, i + 6), RdU8(p, i + 7))
  }

  function SyncManagers(p: seq<byte>): seq<SyncManager> {
    if |p| < 8 then [] else [SyncManagerAt(p, 0)] + SyncManagers(p[8..])
  }

  method ParseSyncManagers(p: seq<byte>) returns (elements: seq<SyncManager>)
    ensures elements == SyncManagers(p)
  {
    elements := [];
    var i := 0;
    while i + 8 <= |p|
      invariant i <= |p|
      invariant elements + SyncManagers(p[i..]) == SyncManagers(p)
    {
      SyncManagerMoved(p, i);
      assert p[i..][8..] == p[i + 8..];
      Associative(elements, [SyncManagerAt(p, i)], SyncManagers(p[i + 8..]));
      elements := elements + [SyncManagerAt(p, i)];
      i := i + 8;
    }
    assert elements + [] == elements;
  }

  lemma SyncManagerMoved(p: seq<byte>, i: nat)
    requires i + 8 <= |p|
    ensures SyncManagerAt(p[i..], 0) == SyncManagerAt(p, i)
  {
  }

  // ---------------------------------------------------------------------------------------- PDOs

  datatype PdoEntry = PdoEntry(
    entryIndex: u16, subindex: byte, entryNameIdx: byte, dataType: byte, bitLen: byte, flags: u16)

  datatype Pdo = Pdo(
    pdoIndex: u16, nEntry: byte, syncM: byte, synchronization: byte, nameIdx: byte, flags: u16,
    entries: seq<PdoEntry>)

  function EntryAt(p: seq<byte>, i: nat): PdoEntry {
    PdoEntry(RdU16(p, i), RdU8(p, i + 2), RdU8(p, i + 3), RdU8(p, i + 4), RdU8(p, i + 5), RdU16(p, i + 6))
  }

  /** A PDO's own fields, before its entries are read. */
  function PdoAt(p: seq<byte>, i: nat): Pdo {
    Pdo(RdU16(p, i), RdU8(p, i + 2), RdU8(p, i + 3), RdU8(p, i + 4), RdU8(p, i + 5), RdU16(p, i + 6), [])
  }

  /** As many of `count` entries as there are whole ones. */
  function Entries(p: seq<byte>, count: nat): (s: seq<PdoEntry>)
    ensures |s| <= count && 8 * |s| <= |p|
    ensures |s| < count ==> |p| < 8 * |s| + 8
    decreases count
  {
    if count == 0 || |p| < 8 then [] else [EntryAt(p, 0)] + Entries(p[8..], count - 1)
  }

  /** The PDO at the front. */
  function FirstPdo(p: seq<byte>): (r: Pdo)
    requires |p| >= 8
    ensures 8 + 8 * |r.entries| <= |p|
  {
    var pdo := PdoAt(p, 0);
    pdo.(entries := Entries(p[8..], pdo.nEntry))
  }

  function Pdos(p: seq<byte>): seq<Pdo>
    decreases |p|
  {
    if |p| < 8 then [] else [FirstPdo(p)] + Pdos(p[8 + 8 * |FirstPdo(p).entries|..])
  }

  lemma EntryMoved(p: seq<byte>, i: nat)
    requires i + 8 <= |p|
    ensures EntryAt(p[i..], 0) == EntryAt(p, i)
  {
  }

  lemma PdoMoved(p: seq<byte>, i: nat)
    requires i + 8 <= |p|
    ensures PdoAt(p[i..], 0) == PdoAt(p, i)
  {
  }

  /** The entry loop: `end` is where the entries stop. */
  method ParseEntries(p: seq<byte>, start: nat, count: byte) returns (entries: seq<PdoEntry>, end: nat)
    requires start <= |p|
    ensures entries == Entries(p[start..], count)
    ensures end == start + 8 * |entries| <= |p|
  {
    entries, end := [], start;
    for i := 0 to count
      invariant end == start + 8 * |entries| <= |p|
      invariant entries + Entries(p[end..], count - i) == Entries(p[start..], count)
    {
      if end + 8 > |p| {
        assert entries + [] == entries;
        return;
      }
      EntryMoved(p, end);
      assert p[end..][8..] == p[end + 8..];
      Associative(entries, [EntryAt(p, end)], Entries(p[end + 8..], count - i - 1));
      entries := entries + [EntryAt(p, end)];
      end := end + 8;
    }
    assert entries + [] == entries;
  }

  ghost predicate StillReads(pdos: seq<Pdo>, p: seq<byte>, offset: nat, all: seq<Pdo>) {
    offset <= |p| && pdos + Pdos(p[offset..]) == all
  }

  method ParsePdo(p: seq<byte>) returns (pdos: seq<Pdo>)
    ensures pdos == Pdos(p)
  {
    pdos := [];
    ghost var all := Pdos(p);
    var offset := 0;
    assert p[0..] == p;
    while offset + 8 <= |p|
      invariant StillReads(pdos, p, offset, all)
      decreases |p| - offset
    {
      var pdo, end := ParseOnePdo(p, offset);
      PdoRead(pdos, p, offset, pdo, all);
      pdos := pdos + [pdo];
      offset := end;
    }
    PdosDone(pdos, p, offset, all);
  }

  method ParseOnePdo(p: seq<byte>, offset: nat) returns (pdo: Pdo, end: nat)
    requires offset + 8 <= |p|
    ensures pdo == PdoAt(p, offset).(entries := Entries(p[offset + 8..], PdoAt(p, offset).nEntry))
    ensures end == offset + 8 + 8 * |pdo.entries|
  {
    pdo := PdoAt(p, offset);
    var entries;
    entries, end := ParseEntries(p, offset + 8, pdo.nEntry);
    pdo := pdo.(entries := entries);
  }

  lemma PdosDone(pdos: seq<Pdo>, p: seq<byte>, offset: nat, all: seq<Pdo>)
    requires offset + 8 > |p| && StillReads(pdos, p, offset, all)
    ensures pdos == all
  {
    assert pdos + [] == pdos;
  }

  lemma FirstPdoMoved(p: seq<byte>, offset: nat, pdo: Pdo)
    requires offset + 8 <= |p|
    requires pdo == PdoAt(p, offset).(entries := Entries(p[offset + 8..], PdoAt(p, offset).nEntry))
    ensures FirstPdo(p[offset..]) == pdo
  {
    PdoMoved(p, offset);
    assert p[offset..][8..] == p[offset + 8..];
  }

  lemma PdoRead(pdos: seq<Pdo>, p: seq<byte>, offset: nat, pdo: Pdo, all: seq<Pdo>)
    requires offset + 8 <= |p| && StillReads(pdos, p, offset, all)
    requires pdo == PdoAt(p, offset).(entries := Entries(p[offset + 8..], PdoAt(p, offset).nEntry))
    ensures StillReads(pdos + [pdo], p, offset + 8 + 8 * |pdo.entries|, all)
  {
    var rest, end := p[offset..], offset + 8 + 8 * |pdo.entries|;
    FirstPdoMoved(p, offset, pdo);
    assert rest[8 + 8 * |pdo.entries|..] == p[end..];
    Associative(pdos, [pdo], Pdos(p[end..]));
  }

  // -------------------------------------------------------------------------- distributed clocks

  datatype Clock = Clock(
    cycleTime0: u32, shiftTime0: u32, shiftTime1: u32, sync1CycleFactor: i16, assignActivate: u16,
    sync0CycleFactor: i16, nameIdx: byte, descIdx: byte)

  function ClockAt(p: seq<byte>, i: nat): Clock {
    Clock(RdU32(p, i), RdU32(p, i + 4), RdU32(p, i + 8), RdI16(p, i + 12), RdU16(p, i + 14), RdI16(p, i + 16),
          RdU8(p, i + 18), RdU8(p, i + 19))
  }

  function Clocks(p: seq<byte>): seq<Clock> {
    if |p| < 24 then [] else [ClockAt(p, 0)] + Clocks(p[24..])
  }

  lemma ClockMoved(p: seq<byte>, i: nat)
    requires i + 24 <= |p|
    ensures ClockAt(p[i..], 0) == ClockAt(p, i)
  {
    var q := p[i..];
    assert q[0..4] == p[i..i + 4] && q[4..8] == p[i + 4..i + 8] && q[8..12] == p[i + 8..i + 12];
  }

  method ParseDc(p: seq<byte>) returns (elements: seq<Clock>)
    ensures elements == Clocks(p)
  {
    elements := [];
    var i := 0;
    while i + 24 <= |p|
      invariant i <= |p|
      invariant elements + Clocks(p[i..]) == Clocks(p)
    {
      ClockMoved(p, i);
      assert p[i..][24..] == p[i + 24..];
      Associative(elements, [ClockAt(p, i)], Clocks(p[i + 24..]));
      elements := elements + [ClockAt(p, i)];
      i := i + 24;
    }
    assert elements + [] == elements;
  }
}
