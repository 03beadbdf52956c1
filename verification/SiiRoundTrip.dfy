/** Writing an SII image out and parsing it again: each decoder against an encoder, and the whole. */
module SiiRoundTrip {
  import opened Bytes
  import opened Sii
  import opened SiiImages
  import opened SiiLaws

  // -------------------------------------------------------------------------------------- the header

  function FromI16(x: i16): u16 { if x >= 0 then x else x + 0x1_0000 }

  function LowWord(v: u32): u16 { v % 0x1_0000 }

  function HighWord(v: u32): u16 { v / 0x1_0000 }

  /** The header word by word; the words in between are reserved. */
  function HeaderWord(h: Info, i: nat): u16 {
    match i
    case 0 => h.pdiControl
    case 1 => h.pdiConfiguration
    case 2 => h.syncImpulseLen
    case 3 => h.pdiConfiguration2
    case 4 => h.configuredStationAlias
    case 7 => h.checksum
    case 8 => LowWord(h.vendorId)
    case 9 => HighWord(h.vendorId)
    case 10 => LowWord(h.productCode)
    case 11 => HighWord(h.productCode)
    case 12 => LowWord(h.revisionNumber)
    case 13 => HighWord(h.revisionNumber)
    case 14 => LowWord(h.serialNumber)
    case 15 => HighWord(h.serialNumber)
    case 20 => h.bootstrapReceiveMailboxOffset
    case 21 => h.bootstrapReceiveMailboxSize
    case 22 => h.bootstrapSendMailboxOffset
    case 23 => h.bootstrapSendMailboxSize
    case 24 => h.standardReceiveMailboxOffset
    case 25 => h.standardReceiveMailboxSize
    case 26 => h.standardSendMailboxOffset
    case 27 => h.standardSendMailboxSize
    case 28 => h.mailboxProtocol
    case 62 => h.size
    case 63 => h.version
    case _ => 0
  }

  function HeaderWords(h: Info): (ws: seq<u16>)
    ensures |ws| == 64
  {
    seq(64, i requires 0 <= i < 64 => HeaderWord(h, i))
  }

  function WordsBytes(ws: seq<u16>): (b: seq<byte>)
    ensures |b| == 2 * |ws|
  {
    seq(2 * |ws|, i requires 0 <= i < 2 * |ws| => if i % 2 == 0 then Low(ws[i / 2]) else High(ws[i / 2]))
  }

  function HeaderBytes(h: Info): (b: seq<byte>)
    ensures |b| == HEADER_BYTES
  {
    WordsBytes(HeaderWords(h))
  }

  lemma WordIsRead(ws: seq<u16>, b: seq<byte>, i: nat)
    requires WordsBytes(ws) <= b && i < |ws|
    ensures RdU16(b, 2 * i) == ws[i]
  {
    var head := WordsBytes(ws);
    assert b[2 * i] == head[2 * i] == Low(ws[i]);
    assert b[2 * i + 1] == head[2 * i + 1] == High(ws[i]);
    WordOfParts(ws[i]);
  }

  lemma HeaderWordRead(h: Info, b: seq<byte>, i: nat, w: u16)
    requires HeaderBytes(h) <= b && i < 64 && HeaderWords(h)[i] == w
    ensures RdU16(b, 2 * i) == w
  {
    WordIsRead(HeaderWords(h), b, i);
  }

  lemma TwoWords(b: seq<byte>, at: nat, v: u32)
    requires at + 4 <= |b|
    requires RdU16(b, at) == LowWord(v) && RdU16(b, at + 2) == HighWord(v)
    ensures RdU32(b, at) == v
  {
    ValueOfFour(b[at..at + 4]);
  }

  lemma LongWordIsRead(ws: seq<u16>, b: seq<byte>, i: nat, v: u32)
    requires WordsBytes(ws) <= b && i + 1 < |ws|
    requires ws[i] == LowWord(v) && ws[i + 1] == HighWord(v)
    ensures RdU32(b, 2 * i) == v
  {
    WordIsRead(ws, b, i);
    WordIsRead(ws, b, i + 1);
    TwoWords(b, 2 * i, v);
  }

  lemma IdentityIsRead(h: Info, b: seq<byte>)
    requires HeaderBytes(h) <= b
    ensures RdU32(b, 16) == h.vendorId && RdU32(b, 20) == h.productCode
    ensures RdU32(b, 24) == h.revisionNumber && RdU32(b, 28) == h.serialNumber
  {
    LongWordIsRead(HeaderWords(h), b, 8, h.vendorId);
    LongWordIsRead(HeaderWords(h), b, 10, h.productCode);
    LongWordIsRead(HeaderWords(h), b, 12, h.revisionNumber);
    LongWordIsRead(HeaderWords(h), b, 14, h.serialNumber);
  }

  lemma PdiIsRead(h: Info, b: seq<byte>)
    requires HeaderBytes(h) <= b
    ensures RdU16(b, 0) == h.pdiControl && RdU16(b, 2) == h.pdiConfiguration
    ensures RdU16(b, 4) == h.syncImpulseLen && RdU16(b, 6) == h.pdiConfiguration2
    ensures RdU16(b, 8) == h.configuredStationAlias && RdU16(b, 14) == h.checksum
    ensures RdU16(b, 124) == h.size && RdU16(b, 126) == h.version
  {
    HeaderWordRead(h, b, 0, h.pdiControl);
    HeaderWordRead(h, b, 1, h.pdiConfiguration);
    HeaderWordRead(h, b, 2, h.syncImpulseLen);
    HeaderWordRead(h, b, 3, h.pdiConfiguration2);
    HeaderWordRead(h, b, 4, h.configuredStationAlias);
    HeaderWordRead(h, b, 7, h.checksum);
    HeaderWordRead(h, b, 62, h.size);
    HeaderWordRead(h, b, 63, h.version);
  }

  lemma BootstrapIsRead(h: Info, b: seq<byte>)
    requires HeaderBytes(h) <= b
    ensures RdU16(b, 40) == h.bootstrapReceiveMailboxOffset && RdU16(b, 42) == h.bootstrapReceiveMailboxSize
    ensures RdU16(b, 44) == h.bootstrapSendMailboxOffset && RdU16(b, 46) == h.bootstrapSendMailboxSize
    ensures RdU16(b, 56) == h.mailboxProtocol
  {
    HeaderWordRead(h, b, 20, h.bootstrapReceiveMailboxOffset);
    HeaderWordRead(h, b, 21, h.bootstrapReceiveMailboxSize);
    HeaderWordRead(h, b, 22, h.bootstrapSendMailboxOffset);
    HeaderWordRead(h, b, 23, h.bootstrapSendMailboxSize);
    HeaderWordRead(h, b, 28, h.mailboxProtocol);
  }

  lemma StandardIsRead(h: Info, b: seq<byte>)
    requires HeaderBytes(h) <= b
    ensures RdU16(b, 48) == h.standardReceiveMailboxOffset && RdU16(b, 50) == h.standardReceiveMailboxSize
    ensures RdU16(b, 52) == h.standardSendMailboxOffset && RdU16(b, 54) == h.standardSendMailboxSize
  {
    HeaderWordRead(h, b, 24, h.standardReceiveMailboxOffset);
    HeaderWordRead(h, b, 25, h.standardReceiveMailboxSize);
    HeaderWordRead(h, b, 26, h.standardSendMailboxOffset);
    HeaderWordRead(h, b, 27, h.standardSendMailboxSize);
  }

  /** Every header is read back from any bytes that begin with it. */
  lemma HeaderRoundTrip(h: Info, b: seq<byte>)
    requires HeaderBytes(h) <= b
    ensures ParseHeader(b) == h
  {
    PdiIsRead(h, b);
    IdentityIsRead(h, b);
    BootstrapIsRead(h, b);
    StandardIsRead(h, b);
  }

  // --------------------------------------------------------------------------------------- strings

  predicate Short(ts: seq<Text>) { |ts| < 256 && forall i | 0 <= i < |ts| :: |ts[i].bytes| < 256 }

  function TextsBytes(ts: seq<Text>): seq<byte>
    requires forall i | 0 <= i < |ts| :: |ts[i].bytes| < 256
  {
    if ts == [] then [] else [|ts[0].bytes|] + ts[0].bytes + TextsBytes(ts[1..])
  }

  lemma TextIsRead(before: seq<byte>, t: Text, after: seq<byte>)
    requires |t.bytes| < 256
    ensures var p := before + ([|t.bytes|] + t.bytes) + after;
            TextAt(p, |before|) == t && After(p, |before|) == |before + ([|t.bytes|] + t.bytes)|
  {
    var p, n := before + ([|t.bytes|] + t.bytes) + after, |before|;
    assert p[n] == |t.bytes|;
    assert p[n + 1..n + 1 + |t.bytes|] == t.bytes;
  }

  lemma Regroup(a: seq<byte>, b: seq<byte>, c: seq<byte>, d: seq<byte>)
    ensures a + (b + c) + d == a + b + (c + d)
  {
  }

  lemma TextStep(p: seq<byte>, at: nat, next: nat, t: Text, ts: seq<Text>)
    requires at < |p| && TextAt(p, at) == t && After(p, at) == next
    requires StringsAt(p, next, |ts|) == ts
    ensures StringsAt(p, at, |ts| + 1) == [t] + ts
  {
  }

  lemma {:induction false} TextsAreRead(before: seq<byte>, ts: seq<Text>, after: seq<byte>)
    requires forall i | 0 <= i < |ts| :: |ts[i].bytes| < 256
    ensures StringsAt(before + TextsBytes(ts) + after, |before|, |ts|) == ts
    decreases |ts|
  {
    if ts == [] {
    } else {
      var first, rest := [|ts[0].bytes|] + ts[0].bytes, TextsBytes(ts[1..]);
      Regroup(before, first, rest, after);
      TextIsRead(before, ts[0], rest + after);
      TextsAreRead(before + first, ts[1..], after);
      Associative(before + first, rest, after);
      TextStep(before + first + (rest + after), |before|, |before + first|, ts[0], ts[1..]);
      assert [ts[0]] + ts[1..] == ts;
    }
  }

  /** A byte of padding where the length is odd. */
  function Pad(p: seq<byte>): (r: seq<byte>)
    ensures |r| % 2 == 0
  {
    if |p| % 2 == 0 then p else p + [0]
  }

  function StringsPayload(ts: seq<Text>): seq<byte>
    requires Short(ts)
  {
    Pad([|ts|] + TextsBytes(ts))
  }

  lemma StringsRoundTrip(ts: seq<Text>)
    requires Short(ts)
    ensures Strings(StringsPayload(ts)) == ts
  {
    var b := [|ts|] + TextsBytes(ts);
    TextsAreRead([|ts|], ts, []);
    assert b + [] == b;
    TextsAreRead([|ts|], ts, [0]);
  }

  // --------------------------------------------------------------------------------------- general

  function GeneralPayload(g: General): (b: seq<byte>)
    ensures |b| == 20
  {
    var current := FromI16(g.currentOnEBus);
    [g.groupIdx, g.imgIdx, g.orderIdx, g.nameIdx, 0, g.coeDetails, g.foeDetails, g.eoeDetails, g.soeChannels,
     g.ds402Channels, g.sysmanClass, g.flags, Low(current), High(current), g.groupIdx, 0,
     Low(g.physicalPort), High(g.physicalPort), Low(g.physicalMemoryAddress), High(g.physicalMemoryAddress)]
  }

  lemma I16RoundTrip(x: i16)
    ensures ToI16(Word(Low(FromI16(x)), High(FromI16(x)))) == x
  {
    WordOfParts(FromI16(x));
  }

  lemma GeneralRoundTrip(g: General)
    ensures ParseGeneral(GeneralPayload(g)) == g
  {
    I16RoundTrip(g.currentOnEBus);
    WordOfParts(g.physicalPort);
    WordOfParts(g.physicalMemoryAddress);
  }

  // --------------------------------------------------------------------------------- sync managers

  function SyncManagerBytes(e: SyncManager): (b: seq<byte>)
    ensures |b| == 8
  {
    [Low(e.physicalStartAddress), High(e.physicalStartAddress), Low(e.length), High(e.length), e.controlRegister,
     e.statusRegister, e.enableSyncManager, e.syncManagerType]
  }

  function SyncManagersPayload(es: seq<SyncManager>): (b: seq<byte>)
    ensures |b| == 8 * |es|
  {
    if es == [] then [] else SyncManagerBytes(es[0]) + SyncManagersPayload(es[1..])
  }

  lemma SyncManagerIsRead(e: SyncManager, rest: seq<byte>)
    ensures SyncManagerAt(SyncManagerBytes(e) + rest, 0) == e
  {
    WordOfParts(e.physicalStartAddress);
    WordOfParts(e.length);
  }

  lemma {:induction false} SyncManagersRoundTrip(es: seq<SyncManager>)
    ensures SyncManagers(SyncManagersPayload(es)) == es
  {
    if es == [] {
    } else {
      var rest := SyncManagersPayload(es[1..]);
      SyncManagerIsRead(es[0], rest);
      assert (SyncManagerBytes(es[0]) + rest)[8..] == rest;
      SyncManagersRoundTrip(es[1..]);
    }
  }

  // ------------------------------------------------------------------------------------------ PDOs

  function EntryBytes(e: PdoEntry): (b: seq<byte>)
    ensures |b| == 8
  {
    [Low(e.entryIndex), High(e.entryIndex), e.subindex, e.entryNameIdx, e.dataType, e.bitLen,
     Low(e.flags), High(e.flags)]
  }

  function EntriesBytes(es: seq<PdoEntry>): (b: seq<byte>)
    ensures |b| == 8 * |es|
  {
    if es == [] then [] else EntryBytes(es[0]) + EntriesBytes(es[1..])
  }

  function PdoHead(p: Pdo): (b: seq<byte>)
    ensures |b| == 8
  {
    [Low(p.pdoIndex), High(p.pdoIndex), p.nEntry, p.syncM, p.synchronization, p.nameIdx, Low(p.flags), High(p.flags)]
  }

  /** Each PDO declares as many entries as it has. */
  predicate Complete(ps: seq<Pdo>) { forall i | 0 <= i < |ps| :: |ps[i].entries| == ps[i].nEntry }

  function PdosPayload(ps: seq<Pdo>): (b: seq<byte>)
    ensures |b| % 8 == 0
  {
    if ps == [] then [] else PdoHead(ps[0]) + EntriesBytes(ps[0].entries) + PdosPayload(ps[1..])
  }

  lemma EntryIsRead(e: PdoEntry, rest: seq<byte>)
    ensures EntryAt(EntryBytes(e) + rest, 0) == e
  {
    WordOfParts(e.entryIndex);
    WordOfParts(e.flags);
  }

  lemma {:induction false} EntriesAreRead(es: seq<PdoEntry>, rest: seq<byte>)
    ensures Entries(EntriesBytes(es) + rest, |es|) == es
  {
    if es == [] {
    } else {
      var tail := EntriesBytes(es[1..]) + rest;
      assert EntriesBytes(es) + rest == EntryBytes(es[0]) + tail;
      EntryIsRead(es[0], tail);
      assert (EntryBytes(es[0]) + tail)[8..] == tail;
      EntriesAreRead(es[1..], rest);
    }
  }

  lemma PdoHeadIsRead(p: Pdo, rest: seq<byte>)
    ensures PdoAt(PdoHead(p) + rest, 0) == p.(entries := [])
  {
    WordOfParts(p.pdoIndex);
    WordOfParts(p.flags);
  }

  lemma PdoIsRead(p: Pdo, rest: seq<byte>)
    requires |p.entries| == p.nEntry
    ensures Pdos(PdoHead(p) + EntriesBytes(p.entries) + rest) == [p] + Pdos(rest)
  {
    var entries := EntriesBytes(p.entries) + rest;
    var b := PdoHead(p) + entries;
    assert PdoHead(p) + EntriesBytes(p.entries) + rest == b;
    PdoHeadIsRead(p, entries);
    assert b[8..] == entries;
    EntriesAreRead(p.entries, rest);
    assert FirstPdo(b) == p;
    assert b[8 + 8 * |p.entries|..] == rest;
  }

  lemma {:induction false} PdosRoundTrip(ps: seq<Pdo>)
    requires Complete(ps)
    ensures Pdos(PdosPayload(ps)) == ps
  {
    if ps == [] {
    } else {
      PdoIsRead(ps[0], PdosPayload(ps[1..]));
      PdosRoundTrip(ps[1..]);
    }
  }

  // ---------------------------------------------------------------------------- distributed clocks

  function ClockBytes(e: Clock): (b: seq<byte>)
    ensures |b| == 24
  {
    var f1, f0 := FromI16(e.sync1CycleFactor), FromI16(e.sync0CycleFactor);
    LowBytes(e.cycleTime0, 4) + LowBytes(e.shiftTime0, 4) + LowBytes(e.shiftTime1, 4)
    + [Low(f1), High(f1), Low(e.assignActivate), High(e.assignActivate), Low(f0), High(f0), e.nameIdx, e.descIdx,
       0, 0, 0, 0]
  }

  function ClocksPayload(es: seq<Clock>): (b: seq<byte>)
    ensures |b| == 24 * |es|
  {
    if es == [] then [] else ClockBytes(es[0]) + ClocksPayload(es[1..])
  }

  lemma LongIsRead(b: seq<byte>, at: nat, v: u32)
    requires at + 4 <= |b| && b[at..at + 4] == LowBytes(v, 4)
    ensures RdU32(b, at) == v
  {
    Powers();
    ValueOfLowBytes(v, 4);
  }

  lemma ClockParts(x: seq<byte>, y: seq<byte>, z: seq<byte>, w: seq<byte>, rest: seq<byte>)
    requires |x| == |y| == |z| == 4 && |w| == 12
    ensures var b := x + y + z + w + rest;
            b[0..4] == x && b[4..8] == y && b[8..12] == z && b[12..24] == w && b[24..] == rest
  {
  }

  lemma ClockIsRead(e: Clock, rest: seq<byte>)
    ensures ClockAt(ClockBytes(e) + rest, 0) == e && (ClockBytes(e) + rest)[24..] == rest
  {
    var b, w := ClockBytes(e) + rest, ClockBytes(e)[12..];
    ClockParts(LowBytes(e.cycleTime0, 4), LowBytes(e.shiftTime0, 4), LowBytes(e.shiftTime1, 4), w, rest);
    assert b == LowBytes(e.cycleTime0, 4) + LowBytes(e.shiftTime0, 4) + LowBytes(e.shiftTime1, 4) + w + rest;
    LongIsRead(b, 0, e.cycleTime0);
    LongIsRead(b, 4, e.shiftTime0);
    LongIsRead(b, 8, e.shiftTime1);
    I16RoundTrip(e.sync1CycleFactor);
    I16RoundTrip(e.sync0CycleFactor);
    WordOfParts(e.assignActivate);
  }

  lemma {:induction false} ClocksRoundTrip(es: seq<Clock>)
    ensures Clocks(ClocksPayload(es)) == es
  {
    if es == [] {
    } else {
      ClockIsRead(es[0], ClocksPayload(es[1..]));
      ClocksRoundTrip(es[1..]);
    }
  }

  // ------------------------------------------------------------------------------- whole images

  function ImageBytes(h: Info, cs: seq<Category>): seq<byte>
    requires AllEncodable(cs)
  {
    HeaderBytes(h) + ChainBytes(cs)
  }

  lemma Behind(head: seq<byte>, c: seq<byte>, b: seq<byte>)
    requires |head| == HEADER_BYTES && b == head + c && |c| % 2 == 0 && |c| >= 2
    ensures head <= b && |b| % 2 == 0 && |b| >= HEADER_BYTES + 2 && b[HEADER_BYTES..] == c
  {
    assert b[HEADER_BYTES..] == c;
  }

  lemma ChainIsRead(cs: seq<Category>, c: seq<byte>)
    requires AllEncodable(cs) && c == ChainBytes(cs)
    ensures Chain(c, 0) == Ok(cs) && |c| % 2 == 0 && |c| >= 2
  {
    assert c[0..] == c;
    ChainIsItsBytes(c, 0, cs);
  }

  lemma WholeIsParsed(h: Info, cs: seq<Category>, b: seq<byte>)
    requires |b| >= HEADER_BYTES && ParseHeader(b) == h && Chain(b[HEADER_BYTES..], 0) == Ok(cs)
    ensures Parsed(b) == Ok(Image(h, SectionOf(UpToNop(cs))))
  {
    WalkFollows(b[HEADER_BYTES..], cs);
    LastCountsAndPdosAccumulate(UpToNop(cs));
  }

  /** Whatever chain of categories is written behind a header, the parser returns the header and what
      the categories up to the first Nop say. */
  lemma ChainRoundTrip(h: Info, cs: seq<Category>)
    requires AllEncodable(cs)
    ensures Parsed(ImageBytes(h, cs)) == Ok(Image(h, SectionOf(UpToNop(cs))))
  {
    var b := ImageBytes(h, cs);
    ChainIsRead(cs, ChainBytes(cs));
    Behind(HeaderBytes(h), ChainBytes(cs), b);
    HeaderRoundTrip(h, b);
    WholeIsParsed(h, cs, b);
  }

  lemma ChecksumByte(h: Info, b: seq<byte>)
    requires HeaderBytes(h) <= b
    ensures b[CHECKSUM_OFFSET] == Low(h.checksum)
  {
    var ws := HeaderWords(h);
    assert b[14] == WordsBytes(ws)[14] == Low(ws[7]);
  }

  lemma AcceptedByChecksum(b: seq<byte>)
    requires |b| % 2 == 0 && |b| >= HEADER_BYTES + 2 && Chain(b[HEADER_BYTES..], 0).Ok?
    ensures Refused(b) == None <==> HeaderChecksum(b) == Crc8.OctetOf(b[CHECKSUM_OFFSET])
  {
  }

  /** The validator accepts a written image exactly when the header carries the right checksum. */
  lemma WrittenImageIsAccepted(h: Info, cs: seq<Category>)
    requires AllEncodable(cs)
    ensures var b := ImageBytes(h, cs);
            Refused(b) == None <==> HeaderChecksum(b) == Crc8.OctetOf(Low(h.checksum))
  {
    var b := ImageBytes(h, cs);
    ChainIsRead(cs, ChainBytes(cs));
    Behind(HeaderBytes(h), ChainBytes(cs), b);
    ChecksumByte(h, b);
    AcceptedByChecksum(b);
  }

  // ------------------------------------------------- sections, in whatever chain they are written

  /** The categories of one type, in the order of the chain. */
  function OfType(cs: seq<Category>, t: CategoryType): seq<Category> {
    if cs == [] then [] else
    OfType(cs[..|cs| - 1], t) + if Resolve(cs[|cs| - 1].code) == Some(t) then [cs[|cs| - 1]] else []
  }

  /** The parts of a list, joined. */
  function Flat(parts: seq<seq<Pdo>>): seq<Pdo> {
    if parts == [] then [] else Flat(parts[..|parts| - 1]) + parts[|parts| - 1]
  }

  /** Each category carries one part of a list of PDOs. */
  predicate CarriesParts(ks: seq<Category>, parts: seq<seq<Pdo>>) {
    && |ks| == |parts|
    && forall i | 0 <= i < |ks| :: Complete(parts[i]) && ks[i].payload == PdosPayload(parts[i])
  }

  lemma CarriesFront(ks: seq<Category>, last: Category, parts: seq<seq<Pdo>>)
    requires CarriesParts(ks + [last], parts)
    ensures |parts| == |ks| + 1 && CarriesParts(ks, parts[..|ks|])
    ensures Pdos(last.payload) == parts[|ks|]
  {
    assert forall i | 0 <= i < |ks| :: (ks + [last])[i] == ks[i];
    assert (ks + [last])[|ks|] == last;
    PdosRoundTrip(parts[|ks|]);
  }

  lemma OfTypeStep(before: seq<Category>, last: Category, t: CategoryType)
    ensures OfType(before + [last], t) == OfType(before, t) + if Resolve(last.code) == Some(t) then [last] else []
    ensures AllPdos(before + [last], t)
         == AllPdos(before, t) + if Resolve(last.code) == Some(t) then Pdos(last.payload) else []
  {
    assert (before + [last])[..|before|] == before;
  }

  lemma FlatStep(parts: seq<seq<Pdo>>, n: nat)
    requires |parts| == n + 1
    ensures Flat(parts) == Flat(parts[..n]) + parts[n]
  {
  }

  lemma {:induction false} PartsAreJoined(cs: seq<Category>, t: CategoryType, parts: seq<seq<Pdo>>)
    requires CarriesParts(OfType(cs, t), parts)
    ensures AllPdos(cs, t) == Flat(parts)
  {
    if cs == [] {
    } else {
      var before, last := cs[..|cs| - 1], cs[|cs| - 1];
      assert cs == before + [last];
      OfTypeStep(before, last, t);
      var ks := OfType(before, t);
      if Resolve(last.code) == Some(t) {
        CarriesFront(ks, last, parts);
        FlatStep(parts, |ks|);
        PartsAreJoined(before, t, parts[..|ks|]);
      } else {
        PartsAreJoined(before, t, parts);
      }
    }
  }

  predicate CarriesStrings(p: Option<seq<byte>>, ts: seq<Text>) {
    if p.None? then ts == [] else Short(ts) && p.value == StringsPayload(ts)
  }

  predicate CarriesGeneral(p: Option<seq<byte>>, g: General) {
    if p.None? then g == NO_GENERAL else p.value == GeneralPayload(g)
  }

  predicate CarriesFmmus(p: Option<seq<byte>>, fmmus: seq<byte>) {
    if p.None? then fmmus == [] else p.value == Pad(fmmus)
  }

  predicate CarriesSyncManagers(p: Option<seq<byte>>, es: seq<SyncManager>) {
    if p.None? then es == [] else p.value == SyncManagersPayload(es)
  }

  predicate CarriesClocks(p: Option<seq<byte>>, es: seq<Clock>) {
    if p.None? then es == [] else p.value == ClocksPayload(es)
  }

  /** A chain in which the last category of each type carries that part of the section, and the PDO
      categories carry the PDO lists in parts. What else the chain holds does not matter. */
  predicate Carries(cs: seq<Category>, s: Section, tx: seq<seq<Pdo>>, rx: seq<seq<Pdo>>) {
    && CarriesStrings(LastPayload(cs, StringTable), s.strings)
    && CarriesGeneral(LastPayload(cs, GeneralInfo), s.general)
    && CarriesFmmus(LastPayload(cs, Fmmu), s.fmmus)
    && CarriesSyncManagers(LastPayload(cs, SyncM), s.syncManagers)
    && CarriesClocks(LastPayload(cs, Dc), s.clocks)
    && CarriesParts(OfType(cs, TxPdo), tx) && s.txPdos == Flat(tx)
    && CarriesParts(OfType(cs, RxPdo), rx) && s.rxPdos == Flat(rx)
  }

  lemma StringsAreCarried(cs: seq<Category>, ts: seq<Text>)
    requires CarriesStrings(LastPayload(cs, StringTable), ts)
    ensures StringsIn(cs) == ts
  {
    if LastPayload(cs, StringTable).Some? {
      StringsRoundTrip(ts);
    }
  }

  lemma GeneralIsCarried(cs: seq<Category>, g: General)
    requires CarriesGeneral(LastPayload(cs, GeneralInfo), g)
    ensures GeneralIn(cs) == g
  {
    GeneralRoundTrip(g);
  }

  lemma SyncManagersAreCarried(cs: seq<Category>, es: seq<SyncManager>)
    requires CarriesSyncManagers(LastPayload(cs, SyncM), es)
    ensures SyncManagersIn(cs) == es
  {
    SyncManagersRoundTrip(es);
  }

  lemma ClocksAreCarried(cs: seq<Category>, es: seq<Clock>)
    requires CarriesClocks(LastPayload(cs, Dc), es)
    ensures ClocksIn(cs) == es
  {
    ClocksRoundTrip(es);
  }

  lemma FmmusAreCarried(cs: seq<Category>, fmmus: seq<byte>)
    requires CarriesFmmus(LastPayload(cs, Fmmu), fmmus)
    ensures FmmusIn(cs) == Pad(fmmus)
  {
  }

  lemma SectionIsCarried(cs: seq<Category>, s: Section, tx: seq<seq<Pdo>>, rx: seq<seq<Pdo>>)
    requires Carries(cs, s, tx, rx)
    ensures SectionOf(cs) == s.(fmmus := Pad(s.fmmus))
  {
    StringsAreCarried(cs, s.strings);
    GeneralIsCarried(cs, s.general);
    FmmusAreCarried(cs, s.fmmus);
    SyncManagersAreCarried(cs, s.syncManagers);
    ClocksAreCarried(cs, s.clocks);
    PartsAreJoined(cs, TxPdo, tx);
    PartsAreJoined(cs, RxPdo, rx);
  }

  /** A section written into any chain with nothing behind a Nop, its PDO lists in any number of parts
      and any other categories in between, is what the parser returns, but for a byte of padding that
      comes back as one more FMMU. */
  lemma ImageRoundTrip(h: Info, cs: seq<Category>, s: Section, tx: seq<seq<Pdo>>, rx: seq<seq<Pdo>>)
    requires AllEncodable(cs) && NopOnlyLast(cs) && Carries(cs, s, tx, rx)
    ensures Parsed(ImageBytes(h, cs)) == Ok(Image(h, s.(fmmus := Pad(s.fmmus))))
  {
    ChainRoundTrip(h, cs);
    UpToNopIsAll(cs);
    SectionIsCarried(cs, s, tx, rx);
  }

  /** So the round trip is exact for an even number of FMMUs, and never for an odd one. */
  lemma RoundTripIsExactForEvenFmmus(h: Info, cs: seq<Category>, s: Section, tx: seq<seq<Pdo>>, rx: seq<seq<Pdo>>)
    requires AllEncodable(cs) && NopOnlyLast(cs) && Carries(cs, s, tx, rx)
    ensures Parsed(ImageBytes(h, cs)) == Ok(Image(h, s)) <==> |s.fmmus| % 2 == 0
  {
    ImageRoundTrip(h, cs, s, tx, rx);
  }

  // ------------------------------------------------------------------ one category of each type

  const TYPES: seq<CategoryType> := [StringTable, GeneralInfo, Fmmu, SyncM, TxPdo, RxPdo, Dc]

  function Payloads(s: Section): (ps: seq<seq<byte>>)
    requires Short(s.strings)
    ensures |ps| == 7
  {
    [StringsPayload(s.strings), GeneralPayload(s.general), Pad(s.fmmus), SyncManagersPayload(s.syncManagers),
     PdosPayload(s.txPdos), PdosPayload(s.rxPdos), ClocksPayload(s.clocks)]
  }

  /** The seven categories of a section. */
  function Categories(s: Section): (cs: seq<Category>)
    requires Short(s.strings)
    ensures |cs| == 7
  {
    seq(7, i requires 0 <= i < 7 => Category(CodeOf(TYPES[i]), Payloads(s)[i]))
  }

  /** The one category of type `t` stands at `i`. */
  predicate OnlyAt(cs: seq<Category>, t: CategoryType, i: nat) {
    i < |cs| && forall j | 0 <= j < |cs| :: Resolve(cs[j].code) == Some(t) <==> j == i
  }

  lemma {:induction false} OnlyOne(cs: seq<Category>, t: CategoryType, i: nat)
    requires OnlyAt(cs, t, i)
    ensures LastPayload(cs, t) == Some(cs[i].payload) && OfType(cs, t) == [cs[i]]
    decreases |cs|
  {
    var before := cs[..|cs| - 1];
    if i == |cs| - 1 {
      NoneOf(before, t);
    } else {
      assert OnlyAt(before, t, i);
      OnlyOne(before, t, i);
    }
  }

  lemma {:induction false} NoneOf(cs: seq<Category>, t: CategoryType)
    requires forall j | 0 <= j < |cs| :: Resolve(cs[j].code) != Some(t)
    ensures OfType(cs, t) == []
  {
    if cs == [] {
    } else {
      NoneOf(cs[..|cs| - 1], t);
    }
  }

  lemma CategoryStandsAt(s: Section, cs: seq<Category>, i: nat)
    requires Short(s.strings) && cs == Categories(s) && i < 7
    ensures LastPayload(cs, TYPES[i]) == Some(Payloads(s)[i])
    ensures OfType(cs, TYPES[i]) == [Category(CodeOf(TYPES[i]), Payloads(s)[i])]
  {
    forall j | 0 <= j < 7
      ensures Resolve(cs[j].code) == Some(TYPES[i]) <==> j == i
    {
      ResolveInvertsCode(TYPES[j], 0);
    }
    OnlyOne(cs, TYPES[i], i);
  }

  lemma SingleCategoriesCarry(s: Section, cs: seq<Category>)
    requires Short(s.strings) && cs == Categories(s)
    ensures CarriesStrings(LastPayload(cs, StringTable), s.strings)
    ensures CarriesGeneral(LastPayload(cs, GeneralInfo), s.general)
    ensures CarriesFmmus(LastPayload(cs, Fmmu), s.fmmus)
    ensures CarriesSyncManagers(LastPayload(cs, SyncM), s.syncManagers)
    ensures CarriesClocks(LastPayload(cs, Dc), s.clocks)
  {
    CategoryStandsAt(s, cs, 0);
    CategoryStandsAt(s, cs, 1);
    CategoryStandsAt(s, cs, 2);
    CategoryStandsAt(s, cs, 3);
    CategoryStandsAt(s, cs, 6);
  }

  lemma PdoCategoryCarries(s: Section, cs: seq<Category>, i: nat, ps: seq<Pdo>)
    requires Short(s.strings) && cs == Categories(s) && i < 7
    requires Complete(ps) && Payloads(s)[i] == PdosPayload(ps)
    ensures CarriesParts(OfType(cs, TYPES[i]), [ps]) && Flat([ps]) == ps
  {
    CategoryStandsAt(s, cs, i);
    assert [ps][..0] == [];
  }

  /** They carry it, so the round trip above holds for them. */
  lemma SevenCategoriesCarry(s: Section)
    requires Short(s.strings) && Complete(s.txPdos) && Complete(s.rxPdos)
    ensures Carries(Categories(s), s, [s.txPdos], [s.rxPdos]) && NopOnlyLast(Categories(s))
  {
    var cs := Categories(s);
    SingleCategoriesCarry(s, cs);
    PdoCategoryCarries(s, cs, 4, s.txPdos);
    PdoCategoryCarries(s, cs, 5, s.rxPdos);
  }
}
