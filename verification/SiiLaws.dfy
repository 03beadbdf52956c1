/** What the validator accepts, that the parser then reads exactly that, and what damage to the
    header cannot get past the validator. */
module SiiLaws {
  import opened Bytes
  import opened Crc8
  import Crc8Laws
  import opened Sii
  import opened SiiImages

  // --------------------------------------------------------------------------- the written form

  /** A category that can be written: it is not the end marker, and its size is a number of words. */
  predicate Encodable(c: Category) {
    c.code != 0xFFFF && |c.payload| % 2 == 0 && |c.payload| / 2 < 0x1_0000
  }

  predicate AllEncodable(cs: seq<Category>) { forall i | 0 <= i < |cs| :: Encodable(cs[i]) }

  function CategoryBytes(c: Category): (b: seq<byte>)
    requires Encodable(c)
    ensures |b| == 4 + |c.payload|
  {
    var n := |c.payload| / 2;
    [Low(c.code), High(c.code), Low(n), High(n)] + c.payload
  }

  function ChainBytes(cs: seq<Category>): (b: seq<byte>)
    requires AllEncodable(cs)
    ensures |b| % 2 == 0
  {
    if cs == [] then [0xFF, 0xFF] else CategoryBytes(cs[0]) + ChainBytes(cs[1..])
  }

  // ----------------------------------------------------------- the validator accepts exactly this

  lemma WordRead(c: seq<byte>, at: nat, w: u16)
    requires at + 2 <= |c|
    ensures c[at] == Low(w) && c[at + 1] == High(w) <==> RdU16(c, at) == w
  {
    WordOfParts(w);
    PartsOfWord(c[at], c[at + 1]);
  }

  /** The bytes at `at` are this category. */
  ghost predicate Stands(c: seq<byte>, at: nat, k: Category) {
    && Encodable(k)
    && at + 4 + |k.payload| <= |c|
    && RdU16(c, at) == k.code
    && 2 * RdU16(c, at + 2) == |k.payload|
    && c[at + 4..at + 4 + |k.payload|] == k.payload
  }

  lemma FourAnd(x: seq<byte>, four: seq<byte>, payload: seq<byte>)
    requires |four| == 4 && |x| == 4 + |payload|
    ensures x == four + payload <==>
      x[0] == four[0] && x[1] == four[1] && x[2] == four[2] && x[3] == four[3] && x[4..] == payload
  {
    if x == four + payload {
      assert x[4..] == payload;
    }
    if x[0] == four[0] && x[1] == four[1] && x[2] == four[2] && x[3] == four[3] && x[4..] == payload {
      assert x == x[..4] + x[4..];
      assert x[..4] == four;
    }
  }

  lemma StandsExactly(c: seq<byte>, at: nat, k: Category)
    requires Encodable(k) && at + 4 + |k.payload| <= |c|
    ensures Stands(c, at, k) <==> c[at..at + 4 + |k.payload|] == CategoryBytes(k)
  {
    var n, x := |k.payload| / 2, c[at..at + 4 + |k.payload|];
    WordRead(c, at, k.code);
    WordRead(c, at + 2, n);
    FourAnd(x, [Low(k.code), High(k.code), Low(n), High(n)], k.payload);
    assert |k.payload| == 2 * n;
    assert x[0] == c[at] && x[1] == c[at + 1] && x[2] == c[at + 2] && x[3] == c[at + 3];
    assert x[4..] == c[at + 4..at + 4 + |k.payload|];
  }

  lemma PrefixJoin(b: seq<byte>, at: nat, part: seq<byte>, tail: seq<byte>)
    requires at + |part| <= |b| && b[at..at + |part|] == part && tail <= b[at + |part|..]
    ensures part + tail <= b[at..]
  {
    assert b[at..] == part + b[at + |part|..];
  }

  /** The bytes from `at` on begin with this chain. */
  ghost predicate Holds(c: seq<byte>, at: nat, ks: seq<Category>) {
    at <= |c| && AllEncodable(ks) && ChainBytes(ks) <= c[at..]
  }

  lemma TwoBytes(c: seq<byte>, at: nat, x: byte, y: byte)
    requires at <= |c|
    ensures [x, y] <= c[at..] <==> at + 2 <= |c| && c[at] == x && c[at + 1] == y
  {
    var rest := c[at..];
    if at + 2 <= |c| {
      assert rest[0] == c[at] && rest[1] == c[at + 1];
    }
  }

  lemma MarkerBytes(lo: byte, hi: byte)
    ensures Word(lo, hi) == END_MARKER <==> lo == 0xFF && hi == 0xFF
  {
  }

  lemma HoldsNone(c: seq<byte>, at: nat)
    ensures Holds(c, at, []) <==> at + 2 <= |c| && RdU16(c, at) == END_MARKER
  {
    if at + 2 <= |c| {
      MarkerBytes(c[at], c[at + 1]);
    }
    if at <= |c| {
      TwoBytes(c, at, 0xFF, 0xFF);
    }
  }

  lemma HoldsFirst(c: seq<byte>, at: nat, k: Category, ks: seq<Category>)
    requires Holds(c, at, [k] + ks)
    ensures Stands(c, at, k) && Holds(c, at + 4 + |k.payload|, ks)
  {
    var all := [k] + ks;
    assert all[0] == k && all[1..] == ks;
    assert Encodable(all[0]);
    assert AllEncodable(all[1..]);
    PrefixParts(c, at, CategoryBytes(k), ChainBytes(ks));
    StandsExactly(c, at, k);
  }

  lemma HoldsMore(c: seq<byte>, at: nat, k: Category, ks: seq<Category>)
    requires Stands(c, at, k) && Holds(c, at + 4 + |k.payload|, ks)
    ensures Holds(c, at, [k] + ks)
  {
    var all := [k] + ks;
    assert all[0] == k && all[1..] == ks;
    StandsExactly(c, at, k);
    PrefixJoin(c, at, CategoryBytes(k), ChainBytes(ks));
  }

  lemma StandingIsLinked(c: seq<byte>, at: nat, k: Category)
    requires Stands(c, at, k)
    ensures Chain(c, at) == Linked(k, Chain(c, at + 4 + |k.payload|))
  {
  }

  /** The categories stand one behind the other from `at` on, and the end marker behind them. */
  ghost predicate Laid(c: seq<byte>, at: nat, ks: seq<Category>)
    decreases |ks|
  {
    if ks == [] then
      at + 2 <= |c| && RdU16(c, at) == END_MARKER
    else
      Stands(c, at, ks[0]) && Laid(c, at + 4 + |ks[0].payload|, ks[1..])
  }

  lemma FirstAndRest(ks: seq<Category>)
    requires ks != []
    ensures ks == [ks[0]] + ks[1..]
  {
  }

  lemma {:induction false} HeldIsLaid(c: seq<byte>, at: nat, ks: seq<Category>)
    requires Holds(c, at, ks)
    ensures Laid(c, at, ks)
    decreases |ks|
  {
    if ks == [] {
      HoldsNone(c, at);
    } else {
      FirstAndRest(ks);
      HoldsFirst(c, at, ks[0], ks[1..]);
      HeldIsLaid(c, at + 4 + |ks[0].payload|, ks[1..]);
    }
  }

  lemma {:induction false} LaidIsHeld(c: seq<byte>, at: nat, ks: seq<Category>)
    requires Laid(c, at, ks)
    ensures Holds(c, at, ks)
    decreases |ks|
  {
    if ks == [] {
      HoldsNone(c, at);
    } else {
      LaidIsHeld(c, at + 4 + |ks[0].payload|, ks[1..]);
      HoldsMore(c, at, ks[0], ks[1..]);
      FirstAndRest(ks);
    }
  }

  lemma ChainStep(c: seq<byte>, at: nat, k: Category, ks: seq<Category>)
    requires Stands(c, at, k) && Chain(c, at + 4 + |k.payload|) == Ok(ks)
    ensures Chain(c, at) == Ok([k] + ks)
  {
    StandingIsLinked(c, at, k);
  }

  lemma {:induction false} ChainOfLaid(c: seq<byte>, at: nat, ks: seq<Category>)
    requires Laid(c, at, ks)
    ensures Chain(c, at) == Ok(ks)
    decreases |ks|
  {
    if ks == [] {
    } else {
      ChainOfLaid(c, at + 4 + |ks[0].payload|, ks[1..]);
      ChainStep(c, at, ks[0], ks[1..]);
      FirstAndRest(ks);
    }
  }

  lemma FirstStands(c: seq<byte>, at: nat)
    requires at + 4 <= |c| && RdU16(c, at) != END_MARKER && NextOffset(c, at) <= |c|
    ensures Stands(c, at, Category(RdU16(c, at), c[at + 4..NextOffset(c, at)]))
  {
    assert NextOffset(c, at) == at + 4 + 2 * RdU16(c, at + 2);
  }

  lemma LinkedStands(c: seq<byte>, at: nat, ks: seq<Category>)
    requires Chain(c, at) == Ok(ks) && ks != []
    ensures Stands(c, at, ks[0]) && Chain(c, at + 4 + |ks[0].payload|) == Ok(ks[1..])
  {
    FirstStands(c, at);
    var k := Category(RdU16(c, at), c[at + 4..NextOffset(c, at)]);
    StandingIsLinked(c, at, k);
  }

  lemma {:induction false} LaidOfChain(c: seq<byte>, at: nat, ks: seq<Category>)
    requires Chain(c, at) == Ok(ks)
    ensures Laid(c, at, ks)
    decreases |ks|
  {
    if ks == [] {
    } else {
      LinkedStands(c, at, ks);
      LaidOfChain(c, at + 4 + |ks[0].payload|, ks[1..]);
    }
  }

  /** The walk finds exactly the chain whose bytes are there. */
  lemma ChainIsItsBytes(c: seq<byte>, at: nat, ks: seq<Category>)
    ensures Chain(c, at) == Ok(ks) <==> Holds(c, at, ks)
  {
    if Chain(c, at) == Ok(ks) {
      LaidOfChain(c, at, ks);
      LaidIsHeld(c, at, ks);
    }
    if Holds(c, at, ks) {
      HeldIsLaid(c, at, ks);
      ChainOfLaid(c, at, ks);
    }
  }

  /** An image in its own terms: whole words, a header that divides by the CRC polynomial together
      with its checksum, and a chain of whole categories that an end marker closes. */
  ghost predicate WellFormed(b: seq<byte>) {
    && |b| % 2 == 0
    && |b| >= 130
    && IsCodeword(OctetsOf(b[..14]), OctetOf(b[14]))
    && exists cs: seq<Category> :: Holds(b[128..], 0, cs)
  }

  /** The validator accepts an image exactly when it is well formed. */
  lemma AcceptsExactlyWellFormed(b: seq<byte>)
    ensures Refused(b) == None <==> WellFormed(b)
  {
    if |b| % 2 == 0 && |b| >= 130 {
      ChecksumIsDivision(OctetsOf(b[..CHECKSUM_OFFSET]), OctetOf(b[CHECKSUM_OFFSET]));
      var c := b[HEADER_BYTES..];
      if Chain(c, 0).Ok? {
        ChainIsItsBytes(c, 0, Chain(c, 0).value);
      }
      forall cs: seq<Category> | Holds(c, 0, cs)
        ensures Chain(c, 0) == Ok(cs)
      {
        ChainIsItsBytes(c, 0, cs);
      }
    }
  }

  // ------------------------------------------------------- the parser reads what was accepted

  /** Up to the first Nop, and with it. */
  function UpToNop(cs: seq<Category>): seq<Category> {
    if cs == [] then [] else [cs[0]] + if cs[0].code == CodeOf(Nop) then [] else UpToNop(cs[1..])
  }

  /** Nothing stands behind a Nop. */
  predicate NopOnlyLast(cs: seq<Category>) { forall i | 0 <= i < |cs| - 1 :: cs[i].code != CodeOf(Nop) }

  lemma {:induction false} UpToNopIsAll(cs: seq<Category>)
    ensures UpToNop(cs) <= cs
    ensures UpToNop(cs) == cs <==> NopOnlyLast(cs)
  {
    if cs == [] {
    } else {
      var rest := cs[1..];
      assert cs == [cs[0]] + rest;
      UpToNopIsAll(rest);
      if cs[0].code == CodeOf(Nop) {
        assert UpToNop(cs) == [cs[0]];
        assert |cs| > 1 ==> cs[0].code == CodeOf(Nop);
      } else {
        NopOnlyLastTail(cs);
        assert UpToNop(cs)[1..] == UpToNop(rest);
      }
    }
  }

  lemma NopOnlyLastTail(cs: seq<Category>)
    requires cs != [] && cs[0].code != CodeOf(Nop)
    ensures NopOnlyLast(cs) <==> NopOnlyLast(cs[1..])
  {
    var rest := cs[1..];
    if NopOnlyLast(rest) {
      forall i | 0 <= i < |cs| - 1 ensures cs[i].code != CodeOf(Nop) {
        assert i > 0 ==> cs[i] == rest[i - 1];
      }
    }
    if NopOnlyLast(cs) {
      forall i | 0 <= i < |rest| - 1 ensures rest[i].code != CodeOf(Nop) {
        assert rest[i] == cs[i + 1];
      }
    }
  }

  lemma WalkStep(c: seq<byte>, at: nat, k: Category)
    requires Stands(c, at, k)
    ensures Walk(c, at) == [k] + if k.code == CodeOf(Nop) then [] else Walk(c, at + 4 + |k.payload|)
  {
  }

  lemma WalkOn(c: seq<byte>, at: nat, k: Category, ks: seq<Category>)
    requires Stands(c, at, k) && Walk(c, at + 4 + |k.payload|) == UpToNop(ks)
    ensures Walk(c, at) == UpToNop([k] + ks)
  {
    WalkStep(c, at, k);
    assert ([k] + ks)[1..] == ks;
  }

  lemma WalkEnds(c: seq<byte>, at: nat)
    requires Laid(c, at, [])
    ensures Walk(c, at) == []
  {
  }

  lemma LaidParts(c: seq<byte>, at: nat, ks: seq<Category>)
    requires Laid(c, at, ks) && ks != []
    ensures Stands(c, at, ks[0]) && Laid(c, at + 4 + |ks[0].payload|, ks[1..])
  {
  }

  /** What the parser walks, given where each category of a chain stands. */
  ghost predicate Walks(c: seq<byte>, at: nat, ks: seq<Category>) { Walk(c, at) == UpToNop(ks) }

  lemma {:induction false} WalkOfLaid(c: seq<byte>, at: nat, ks: seq<Category>)
    requires Laid(c, at, ks)
    ensures Walks(c, at, ks)
    decreases |ks|
  {
    if ks == [] {
      WalkEnds(c, at);
    } else {
      LaidParts(c, at, ks);
      var k, rest, next := ks[0], ks[1..], at + 4 + |ks[0].payload|;
      WalkOfLaid(c, next, rest);
      WalkOn(c, at, k, rest);
      FirstAndRest(ks);
    }
  }

  lemma WalkFollows(c: seq<byte>, ks: seq<Category>)
    requires Chain(c, 0) == Ok(ks)
    ensures Walk(c, 0) == UpToNop(ks)
  {
    LaidOfChain(c, 0, ks);
    WalkOfLaid(c, 0, ks);
  }

  /** On an accepted image the parser succeeds, clamps nothing and decodes the validator's chain, cut
      behind its first Nop; so it decodes the whole chain exactly when nothing stands behind a Nop. */
  lemma ParserAgreesWithValidator(b: seq<byte>)
    requires Refused(b) == None
    ensures Parsed(b).Ok? && Chain(b[HEADER_BYTES..], 0).Ok?
    ensures var cs, walked := Chain(b[HEADER_BYTES..], 0).value, Walk(b[HEADER_BYTES..], 0);
            && Parsed(b).value.category == WithAll(NOTHING, UpToNop(cs))
            && walked == UpToNop(cs)
            && (walked == cs <==> NopOnlyLast(cs))
  {
    var cs := Chain(b[HEADER_BYTES..], 0).value;
    WalkFollows(b[HEADER_BYTES..], cs);
    UpToNopIsAll(cs);
  }

  // ------------------------------------------------------------- what decoding a chain amounts to

  /** The payload of the last category of a type. */
  function LastPayload(cs: seq<Category>, t: CategoryType): Option<seq<byte>> {
    if cs == [] then None
    else if Resolve(cs[|cs| - 1].code) == Some(t) then Some(cs[|cs| - 1].payload)
    else LastPayload(cs[..|cs| - 1], t)
  }

  /** The PDOs of every category of a type, in the order of the chain. */
  function AllPdos(cs: seq<Category>, t: CategoryType): seq<Pdo> {
    if cs == [] then [] else
    AllPdos(cs[..|cs| - 1], t) + if Resolve(cs[|cs| - 1].code) == Some(t) then Pdos(cs[|cs| - 1].payload) else []
  }

  function StringsIn(cs: seq<Category>): seq<Text> {
    match LastPayload(cs, StringTable) case None => [] case Some(p) => Strings(p)
  }

  function GeneralIn(cs: seq<Category>): General {
    match LastPayload(cs, GeneralInfo) case None => NO_GENERAL case Some(p) => ParseGeneral(p)
  }

  function FmmusIn(cs: seq<Category>): seq<byte> {
    match LastPayload(cs, Fmmu) case None => [] case Some(p) => p
  }

  function SyncManagersIn(cs: seq<Category>): seq<SyncManager> {
    match LastPayload(cs, SyncM) case None => [] case Some(p) => SyncManagers(p)
  }

  function ClocksIn(cs: seq<Category>): seq<Clock> {
    match LastPayload(cs, Dc) case None => [] case Some(p) => Clocks(p)
  }

  /** A chain's section, told type by type. */
  function SectionOf(cs: seq<Category>): Section {
    Section(StringsIn(cs), GeneralIn(cs), FmmusIn(cs), SyncManagersIn(cs), AllPdos(cs, RxPdo), AllPdos(cs, TxPdo),
            ClocksIn(cs))
  }

  lemma {:induction false} WithAllAppend(s: Section, cs: seq<Category>, c: Category)
    ensures WithAll(s, cs + [c]) == With(WithAll(s, cs), c)
    decreases |cs|
  {
    if cs == [] {
      assert cs + [c] == [c] && [c][1..] == [];
    } else {
      assert (cs + [c])[1..] == cs[1..] + [c];
      WithAllAppend(With(s, cs[0]), cs[1..], c);
    }
  }

  lemma LastPayloadAppend(cs: seq<Category>, c: Category, t: CategoryType)
    ensures LastPayload(cs + [c], t) == if Resolve(c.code) == Some(t) then Some(c.payload) else LastPayload(cs, t)
  {
    var all := cs + [c];
    assert all[..|all| - 1] == cs && all[|all| - 1] == c;
  }

  lemma AllPdosAppend(cs: seq<Category>, c: Category, t: CategoryType)
    ensures AllPdos(cs + [c], t)
         == if Resolve(c.code) == Some(t) then AllPdos(cs, t) + Pdos(c.payload) else AllPdos(cs, t)
  {
    var all := cs + [c];
    assert all[..|all| - 1] == cs && all[|all| - 1] == c;
    assert AllPdos(cs, t) + [] == AllPdos(cs, t);
  }

  lemma LastCounts(cs: seq<Category>, c: Category)
    ensures var all, t := cs + [c], Resolve(c.code);
      && StringsIn(all) == (if t == Some(StringTable) then Strings(c.payload) else StringsIn(cs))
      && GeneralIn(all) == (if t == Some(GeneralInfo) then ParseGeneral(c.payload) else GeneralIn(cs))
      && FmmusIn(all) == (if t == Some(Fmmu) then c.payload else FmmusIn(cs))
      && SyncManagersIn(all) == (if t == Some(SyncM) then SyncManagers(c.payload) else SyncManagersIn(cs))
      && ClocksIn(all) == (if t == Some(Dc) then Clocks(c.payload) else ClocksIn(cs))
  {
    LastPayloadAppend(cs, c, StringTable);
    LastPayloadAppend(cs, c, GeneralInfo);
    LastPayloadAppend(cs, c, Fmmu);
    LastPayloadAppend(cs, c, SyncM);
    LastPayloadAppend(cs, c, Dc);
  }

  /** A decoded category changes the field of its type and no other. */
  lemma OnlyItsField(s: Section, t: Option<CategoryType>, p: seq<byte>)
    ensures var r := WithType(s, t, p);
            && r.strings == (if t == Some(StringTable) then Strings(p) else s.strings)
            && r.general == (if t == Some(GeneralInfo) then ParseGeneral(p) else s.general)
            && r.fmmus == (if t == Some(Fmmu) then p else s.fmmus)
            && r.syncManagers == (if t == Some(SyncM) then SyncManagers(p) else s.syncManagers)
            && r.rxPdos == (if t == Some(RxPdo) then s.rxPdos + Pdos(p) else s.rxPdos)
            && r.txPdos == (if t == Some(TxPdo) then s.txPdos + Pdos(p) else s.txPdos)
            && r.clocks == (if t == Some(Dc) then Clocks(p) else s.clocks)
  {
  }

  lemma SectionOfAppend(cs: seq<Category>, c: Category)
    ensures SectionOf(cs + [c]) == With(SectionOf(cs), c)
  {
    LastCounts(cs, c);
    AllPdosAppend(cs, c, RxPdo);
    AllPdosAppend(cs, c, TxPdo);
    OnlyItsField(SectionOf(cs), Resolve(c.code), c.payload);
  }

  /** The last category of a type counts, except that PDOs accumulate in the order of the chain. */
  lemma {:induction false} LastCountsAndPdosAccumulate(cs: seq<Category>)
    ensures WithAll(NOTHING, cs) == SectionOf(cs)
    decreases |cs|
  {
    if cs == [] {
    } else {
      var before, c := cs[..|cs| - 1], cs[|cs| - 1];
      assert cs == before + [c];
      LastCountsAndPdosAccumulate(before);
      WithAllAppend(NOTHING, before, c);
      SectionOfAppend(before, c);
    }
  }

  // ---------------------------------------------------------------------- damage to the header

  /** The bits of the checked bytes and their checksum in which two images differ. */
  function HeaderChanges(b: seq<byte>, d: seq<byte>): seq<bool>
    requires |b| == |d| >= HEADER_BYTES
  {
    Crc8Laws.Changed(OctetsOf(b[..CHECKSUM_OFFSET]), OctetOf(b[CHECKSUM_OFFSET]),
                     OctetsOf(d[..CHECKSUM_OFFSET]), OctetOf(d[CHECKSUM_OFFSET]))
  }

  /** An accepted image with one, two, three or any odd number of bits changed in the first fifteen
      bytes is refused for its checksum. */
  lemma DamagedHeaderIsRefused(b: seq<byte>, d: seq<byte>)
    requires Refused(b) == None && |d| == |b|
    requires var n := Crc8Laws.Ones(HeaderChanges(b, d)); 1 <= n <= 3 || Crc8Laws.Odd(n)
    ensures Refused(d) == Some(ChecksumMismatch(d[CHECKSUM_OFFSET], HeaderChecksum(d)))
  {
    var m, c := OctetsOf(b[..CHECKSUM_OFFSET]), OctetOf(b[CHECKSUM_OFFSET]);
    var n, e := OctetsOf(d[..CHECKSUM_OFFSET]), OctetOf(d[CHECKSUM_OFFSET]);
    if Crc8Laws.Ones(HeaderChanges(b, d)) <= 3 {
      Crc8Laws.DetectsThreeChanges(m, c, n, e);
    } else {
      Crc8Laws.DetectsOddChanges(m, c, n, e);
    }
  }

  /** And so is one whose changes there all lie within eight consecutive bits. */
  lemma DamageInABurstIsRefused(b: seq<byte>, d: seq<byte>, p: nat)
    requires Refused(b) == None && |d| == |b|
    requires b[..CHECKSUM_OFFSET + 1] != d[..CHECKSUM_OFFSET + 1]
    requires p + 8 <= 8 * (CHECKSUM_OFFSET + 1)
    requires Crc8Laws.Within(HeaderChanges(b, d), p)
    ensures Refused(d) == Some(ChecksumMismatch(d[CHECKSUM_OFFSET], HeaderChecksum(d)))
  {
    HeadersDiffer(b, d);
    Crc8Laws.DetectsBursts(OctetsOf(b[..CHECKSUM_OFFSET]), OctetOf(b[CHECKSUM_OFFSET]),
                           OctetsOf(d[..CHECKSUM_OFFSET]), OctetOf(d[CHECKSUM_OFFSET]), p);
  }

  lemma HeadersDiffer(b: seq<byte>, d: seq<byte>)
    requires |b| == |d| >= HEADER_BYTES && b[..CHECKSUM_OFFSET + 1] != d[..CHECKSUM_OFFSET + 1]
    ensures (OctetsOf(b[..CHECKSUM_OFFSET]), OctetOf(b[CHECKSUM_OFFSET]))
         != (OctetsOf(d[..CHECKSUM_OFFSET]), OctetOf(d[CHECKSUM_OFFSET]))
  {
    OctetsDiffer(b[..CHECKSUM_OFFSET], b[CHECKSUM_OFFSET], d[..CHECKSUM_OFFSET], d[CHECKSUM_OFFSET]);
    assert b[..CHECKSUM_OFFSET + 1] == b[..CHECKSUM_OFFSET] + [b[CHECKSUM_OFFSET]];
    assert d[..CHECKSUM_OFFSET + 1] == d[..CHECKSUM_OFFSET] + [d[CHECKSUM_OFFSET]];
  }

  lemma OctetsDiffer(x: seq<byte>, i: byte, y: seq<byte>, j: byte)
    requires |x| == |y|
    ensures OctetsOf(x) == OctetsOf(y) && OctetOf(i) == OctetOf(j) ==> x == y && i == j
  {
    if OctetsOf(x) == OctetsOf(y) && OctetOf(i) == OctetOf(j) {
      OctetOfIsInjective(i, j);
      forall k | 0 <= k < |x| ensures x[k] == y[k] {
        assert OctetsOf(x)[k] == OctetsOf(y)[k];
        OctetOfIsInjective(x[k], y[k]);
      }
    }
  }
}
