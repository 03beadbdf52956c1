/** An SII image as a chain of categories: the parser that walks it by bytes and clamps, and the
    validator that walks it by words and refuses. */
module SiiImages {
  import opened Bytes
  import opened Crc8
  import opened Sii

  // ------------------------------------------------------------------------------ category types

  datatype CategoryType =
    | Nop | DeviceSpecific | StringTable | DataTypes | GeneralInfo | Fmmu | SyncM | FmmuX | SyncUnit | TxPdo | RxPdo
    | Dc | Timeouts | Dictionary | Hardware | VendorInformation | Images | VendorSpecific | ApplicationSpecific | End

  /** The enumerator's value. */
  function CodeOf(t: CategoryType): u16 {
    match t
    case Nop => 0
    case DeviceSpecific => 1
    case StringTable => 10
    case DataTypes => 20
    case GeneralInfo => 30
    case Fmmu => 40
    case SyncM => 41
    case FmmuX => 42
    case SyncUnit => 43
    case TxPdo => 50
    case RxPdo => 51
    case Dc => 60
    case Timeouts => 70
    case Dictionary => 80
    case Hardware => 90
    case VendorInformation => 100
    case Images => 110
    case VendorSpecific => 0x0800
    case ApplicationSpecific => 0x2000
    case End => 0xFFFF
  }

  /** The types that stand for one value, not for a range. */
  predicate IsSingle(t: CategoryType) { !t.DeviceSpecific? && !t.VendorSpecific? && !t.ApplicationSpecific? }

  /** resolveSiiCategoryType. */
  function Resolve(value: u16): Option<CategoryType> {
    if 1 <= value <= 9 then Some(DeviceSpecific)
    else if 0x0800 <= value <= 0x1FFF then Some(VendorSpecific)
    else if 0x2000 <= value <= 0x2FFF then Some(ApplicationSpecific)
    else if 0x3000 <= value <= 0xFFFE then Some(VendorSpecific)
    else if value == 0 then Some(Nop)
    else if value == 10 then Some(StringTable)
    else if value == 20 then Some(DataTypes)
    else if value == 30 then Some(GeneralInfo)
    else if value == 40 then Some(Fmmu)
    else if value == 41 then Some(SyncM)
    else if value == 42 then Some(FmmuX)
    else if value == 43 then Some(SyncUnit)
    else if value == 50 then Some(TxPdo)
    else if value == 51 then Some(RxPdo)
    else if value == 60 then Some(Dc)
    else if value == 70 then Some(Timeouts)
    else if value == 80 then Some(Dictionary)
    else if value == 90 then Some(Hardware)
    else if value == 100 then Some(VendorInformation)
    else if value == 110 then Some(Images)
    else if value == 0xFFFF then Some(End)
    else None
  }

  /** Every type is what its own value resolves to, and a type that is one value is no other's. */
  lemma ResolveInvertsCode(t: CategoryType, value: u16)
    ensures Resolve(CodeOf(t)) == Some(t)
    ensures IsSingle(t) ==> (Resolve(value) == Some(t) <==> value == CodeOf(t))
  {
  }

  // ------------------------------------------------------------------------- what a chain decodes to

  datatype Category = Category(code: u16, payload: seq<byte>)

  datatype Section = Section(
    strings: seq<Text>, general: General, fmmus: seq<byte>, syncManagers: seq<SyncManager>, rxPdos: seq<Pdo>,
    txPdos: seq<Pdo>, clocks: seq<Clock>)

  const NOTHING: Section := Section([], NO_GENERAL, [], [], [], [], [])

  /** A section with one more category decoded into it. */
  function With(s: Section, c: Category): Section { WithType(s, Resolve(c.code), c.payload) }

  function WithType(s: Section, t: Option<CategoryType>, payload: seq<byte>): Section {
    match t
    case Some(StringTable) => s.(strings := Strings(payload))
    case Some(GeneralInfo) => s.(general := ParseGeneral(payload))
    case Some(Fmmu) => s.(fmmus := payload)
    case Some(SyncM) => s.(syncManagers := SyncManagers(payload))
    case Some(RxPdo) => s.(rxPdos := s.rxPdos + Pdos(payload))
    case Some(TxPdo) => s.(txPdos := s.txPdos + Pdos(payload))
    case Some(Dc) => s.(clocks := Clocks(payload))
    case _ => s
  }

  function WithAll(s: Section, cs: seq<Category>): Section
    decreases |cs|
  {
    if cs == [] then s else WithAll(With(s, cs[0]), cs[1..])
  }

  /** The dispatch of parseSii. */
  method Decode(s: Section, t: Option<CategoryType>, payload: seq<byte>) returns (r: Section)
    ensures r == WithType(s, t, payload)
  {
    r := s;
    if t == Some(StringTable) {
      var strings := ParseStrings(payload);
      r := s.(strings := strings);
    } else if t == Some(GeneralInfo) {
      r := s.(general := ParseGeneral(payload));
    } else if t == Some(Fmmu) {
      var fmmus := ParseFmmu(payload);
      r := s.(fmmus := fmmus);
    } else if t == Some(SyncM) {
      var elements := ParseSyncManagers(payload);
      r := s.(syncManagers := elements);
    } else if t == Some(RxPdo) {
      var pdos := ParsePdo(payload);
      r := s.(rxPdos := s.rxPdos + pdos);
    } else if t == Some(TxPdo) {
      var pdos := ParsePdo(payload);
      r := s.(txPdos := s.txPdos + pdos);
    } else if t == Some(Dc) {
      var elements := ParseDc(payload);
      r := s.(clocks := elements);
    }
  }

  // ------------------------------------------------------------------------------------ the parser

  const END_MARKER: u16 := 0xFFFF

  /** The category header at `offset`: its payload is clamped to the bytes there are. */
  function CategoryAt(c: seq<byte>, offset: nat): Category
    requires offset + 4 <= |c|
  {
    Category(RdU16(c, offset), c[offset + 4..offset + 4 + Min(2 * RdU16(c, offset + 2), |c| - offset - 4)])
  }

  function NextOffset(c: seq<byte>, offset: nat): nat { offset + 4 + 2 * RdU16(c, offset + 2) }

  predicate Stops(c: seq<byte>, offset: nat) { offset + 4 > |c| || RdU16(c, offset) == END_MARKER }

  /** The categories the parser decodes: up to the end marker, and no further than a Nop. */
  function Walk(c: seq<byte>, offset: nat): seq<Category>
    decreases |c| - offset
  {
    if Stops(c, offset) then
      []
    else
      [CategoryAt(c, offset)] + if RdU16(c, offset) == CodeOf(Nop) then [] else Walk(c, NextOffset(c, offset))
  }

  datatype Image = Image(info: Info, category: Section)

  /** The image is too small: how many bytes it has. */
  datatype TooSmall = TooSmall(bytes: nat)

  function Parsed(buffer: seq<byte>): Result<Image, TooSmall> {
    if |buffer| < HEADER_BYTES then
      Err(TooSmall(|buffer|))
    else
      Ok(Image(ParseHeader(buffer), WithAll(NOTHING, Walk(buffer[HEADER_BYTES..], 0))))
  }

  method ParseSii(buffer: seq<byte>) returns (r: Result<Image, TooSmall>)
    ensures r == Parsed(buffer)
  {
    if |buffer| < HEADER_BYTES {
      return Err(TooSmall(|buffer|));
    }
    var section := ParseCategories(buffer[HEADER_BYTES..]);
    r := Ok(Image(ParseHeader(buffer), section));
  }

  /** What is decoded and what the walk from `offset` still brings make `all`. */
  ghost predicate StillDecodes(s: Section, c: seq<byte>, offset: nat, all: Section) {
    WithAll(s, Walk(c, offset)) == all
  }

  /** The loop of parseSii. */
  method ParseCategories(categories: seq<byte>) returns (section: Section)
    ensures section == WithAll(NOTHING, Walk(categories, 0))
  {
    section := NOTHING;
    ghost var all := WithAll(NOTHING, Walk(categories, 0));
    var offset: nat := 0;
    while offset + 4 <= |categories|
      invariant StillDecodes(section, categories, offset, all)
      decreases |categories| - offset
    {
      var typeValue := RdU16(categories, offset);
      if typeValue == END_MARKER {
        break;
      }
      var category, next := CutCategory(categories, offset);
      Decoded(section, categories, offset, all);
      var t := Resolve(typeValue);
      section := Decode(section, t, category.payload);
      if t == Some(Nop) || t == Some(End) {
        return;
      }
      offset := next;
    }
  }

  method CutCategory(categories: seq<byte>, offset: nat) returns (c: Category, next: nat)
    requires offset + 4 <= |categories|
    ensures c == CategoryAt(categories, offset) && next == NextOffset(categories, offset)
  {
    var wordSize: int := RdU16(categories, offset + 2);
    var payloadStart := offset + 4;
    var declared := wordSize * 2;
    var available := |categories| - payloadStart;
    c := Category(RdU16(categories, offset), categories[payloadStart..payloadStart + Min(declared, available)]);
    next := payloadStart + declared;
  }

  lemma Decoded(s: Section, c: seq<byte>, offset: nat, all: Section)
    requires !Stops(c, offset) && StillDecodes(s, c, offset, all)
    ensures RdU16(c, offset) == CodeOf(Nop) ==> With(s, CategoryAt(c, offset)) == all
    ensures RdU16(c, offset) != CodeOf(Nop) ==>
              StillDecodes(With(s, CategoryAt(c, offset)), c, NextOffset(c, offset), all)
  {
    var rest := if RdU16(c, offset) == CodeOf(Nop) then [] else Walk(c, NextOffset(c, offset));
    assert Walk(c, offset) == [CategoryAt(c, offset)] + rest;
    assert Walk(c, offset)[1..] == rest;
    assert WithAll(With(s, CategoryAt(c, offset)), []) == With(s, CategoryAt(c, offset));
  }

  // ---------------------------------------------------------------------------------- the validator

  const CHECKSUM_OFFSET: nat := 14
  const CATEGORY_START_WORD: nat := 0x40

  datatype Rejection =
    | OddLength(bytes: nat)
    | TooFewWords(words: nat)
    | ChecksumMismatch(carried: byte, computed: Octet)
    | NoEndMarker
    | NoSizeWord(word: nat)
    | RunsPast(word: nat, size: u16, words: nat)

  /** The word of the image in which the byte `offset` of the category section lies. */
  function WordOf(offset: nat): nat { (HEADER_BYTES + offset) / 2 }

  /** The categories from `offset` on up to an end marker, every one of them whole. */
  function Chain(c: seq<byte>, offset: nat): Result<seq<Category>, Rejection>
    decreases |c| - offset
  {
    if offset + 2 > |c| then
      Err(NoEndMarker)
    else if RdU16(c, offset) == END_MARKER then
      Ok([])
    else if offset + 4 > |c| then
      Err(NoSizeWord(WordOf(offset)))
    else if NextOffset(c, offset) > |c| then
      Err(RunsPast(WordOf(offset), RdU16(c, offset + 2), WordOf(|c|)))
    else
      Linked(Category(RdU16(c, offset), c[offset + 4..NextOffset(c, offset)]), Chain(c, NextOffset(c, offset)))
  }

  function Linked(c: Category, rest: Result<seq<Category>, Rejection>): Result<seq<Category>, Rejection> {
    match rest
    case Ok(cs) => Ok([c] + cs)
    case Err(e) => Err(e)
  }

  function HeaderChecksum(b: seq<byte>): Octet
    requires |b| >= CHECKSUM_OFFSET
  {
    Crc(INITIAL, OctetsOf(b[..CHECKSUM_OFFSET]))
  }

  /** Why an image is refused, if it is. */
  function Refused(b: seq<byte>): Option<Rejection> {
    if |b| % 2 != 0 then
      Some(OddLength(|b|))
    else if |b| / 2 < CATEGORY_START_WORD + 1 then
      Some(TooFewWords(|b| / 2))
    else if HeaderChecksum(b) != OctetOf(b[CHECKSUM_OFFSET]) then
      Some(ChecksumMismatch(b[CHECKSUM_OFFSET], HeaderChecksum(b)))
    else
      match Chain(b[HEADER_BYTES..], 0)
      case Ok(_) => None
      case Err(e) => Some(e)
  }

  method ValidateSiiImage(buffer: seq<byte>) returns (r: Option<Rejection>)
    ensures r == Refused(buffer)
  {
    if |buffer| % 2 != 0 {
      return Some(OddLength(|buffer|));
    }
    var words := |buffer| / 2;
    if words < CATEGORY_START_WORD + 1 {
      return Some(TooFewWords(words));
    }
    var crc := Checksum(OctetsOf(buffer[..CHECKSUM_OFFSET]));
    if crc != OctetOf(buffer[CHECKSUM_OFFSET]) {
      return Some(ChecksumMismatch(buffer[CHECKSUM_OFFSET], crc));
    }
    r := WalkChain(buffer);
  }

  /** Going on from `word` ends as the whole walk does. */
  ghost predicate StillWalks(b: seq<byte>, word: nat, all: Result<seq<Category>, Rejection>) {
    && CATEGORY_START_WORD <= word && 2 * word <= |b|
    && var rest := Chain(b[HEADER_BYTES..], 2 * word - HEADER_BYTES);
       (rest.Ok? <==> all.Ok?) && (rest.Err? ==> rest == all)
  }

  /** The chain loop of validateSiiImage. */
  method WalkChain(buffer: seq<byte>) returns (r: Option<Rejection>)
    requires |buffer| % 2 == 0 && |buffer| >= HEADER_BYTES
    ensures r == match Chain(buffer[HEADER_BYTES..], 0) case Ok(_) => None case Err(e) => Some(e)
  {
    ghost var all := Chain(buffer[HEADER_BYTES..], 0);
    var words := |buffer| / 2;
    var word := CATEGORY_START_WORD;
    while true
      invariant StillWalks(buffer, word, all)
      decreases words - word
    {
      if word >= words {
        return Some(NoEndMarker);
      }
      var code := ReadU16(buffer, 2 * word);
      SameWord(buffer, word);
      if code == END_MARKER {
        return None;
      }
      if word + 1 >= words {
        return Some(NoSizeWord(word));
      }
      var size := ReadU16(buffer, 2 * word + 2);
      SameWord(buffer, word + 1);
      var next := word + 2 + size;
      if next <= word || next > words {
        return Some(RunsPast(word, size, words));
      }
      word := next;
    }
  }

  lemma SameWord(b: seq<byte>, word: nat)
    requires CATEGORY_START_WORD <= word && 2 * word + 2 <= |b|
    ensures RdU16(b[HEADER_BYTES..], 2 * word - HEADER_BYTES) == ReadU16(b, 2 * word)
    ensures WordOf(2 * word - HEADER_BYTES) == word
  {
  }
}
