/** What the SII decoders read of any payload: which words a short one still gives, how many elements it
    holds and where each of them stands, and what is left of an element the payload cuts. */
module SiiElements {
  import opened Bytes
  import opened Sii
  import opened SiiImages
  import opened SiiRoundTrip

  // ------------------------------------------------------------------------------- field readers

  /** A field is the number in its bytes, low byte first, and zero when one of them is missing. */
  lemma FieldsExactly(b: seq<byte>, off: nat)
    ensures RdU8(b, off) == if off + 1 <= |b| then b[off] else 0
    ensures RdU16(b, off) == if off + 2 <= |b| then b[off] as int + 256 * b[off + 1] as int else 0
    ensures RdU32(b, off) == if off + 4 <= |b| then Shifted(b[off], b[off + 1], b[off + 2], b[off + 3]) else 0
    ensures RdI16(b, off) == var u := RdU16(b, off); if u <= 32767 then u else u - 65536
  {
    if off + 4 <= |b| {
      ValueOfFour(b[off..off + 4]);
    }
  }

  /** Which type each value stands for: the single ones of ETG.2010, the three ranges, and that every other
      value is unknown. */
  lemma ResolvesExactly(v: u16)
    ensures Resolve(v) == Some(Nop) <==> v == 0
    ensures Resolve(v) == Some(StringTable) <==> v == 10
    ensures Resolve(v) == Some(DataTypes) <==> v == 20
    ensures Resolve(v) == Some(GeneralInfo) <==> v == 30
    ensures Resolve(v) == Some(Fmmu) <==> v == 40
    ensures Resolve(v) == Some(SyncM) <==> v == 41
    ensures Resolve(v) == Some(FmmuX) <==> v == 42
    ensures Resolve(v) == Some(SyncUnit) <==> v == 43
    ensures Resolve(v) == Some(TxPdo) <==> v == 50
    ensures Resolve(v) == Some(RxPdo) <==> v == 51
    ensures Resolve(v) == Some(Dc) <==> v == 60
    ensures Resolve(v) == Some(End) <==> v == 0xFFFF
    ensures Resolve(v) == Some(DeviceSpecific) <==> 1 <= v <= 9
    ensures Resolve(v) == Some(VendorSpecific) <==> 0x0800 <= v <= 0x1FFF || 0x3000 <= v <= 0xFFFE
    ensures Resolve(v) == Some(ApplicationSpecific) <==> 0x2000 <= v <= 0x2FFF
    ensures Resolve(v) == None <==>
      10 < v < 0x0800 && v !in {20, 30, 40, 41, 42, 43, 50, 51, 60, 70, 80, 90, 100, 110}
  {
  }

  // -------------------------------------------------------------- elements of one size each

  /** As many sync managers as there are whole groups of eight bytes, one from each. */
  lemma {:induction false} SyncManagersExactly(p: seq<byte>, i: nat)
    ensures |SyncManagers(p)| == |p| / 8
    ensures i < |p| / 8 ==> SyncManagers(p)[i] == SyncManagerAt(p, 8 * i)
    decreases |p|
  {
    if |p| < 8 {
    } else if i == 0 {
      SyncManagersExactly(p[8..], 0);
    } else {
      SyncManagersExactly(p[8..], i - 1);
      if i < |p| / 8 {
        SyncManagerAhead(p, 8 * (i - 1));
      }
    }
  }

  lemma SyncManagerAhead(p: seq<byte>, i: nat)
    requires 8 + i + 8 <= |p|
    ensures SyncManagerAt(p[8..], i) == SyncManagerAt(p, 8 + i)
  {
  }

  /** As many clocks as there are whole groups of twenty-four bytes. */
  lemma {:induction false} ClocksExactly(p: seq<byte>, i: nat)
    ensures |Clocks(p)| == |p| / 24
    ensures i < |p| / 24 ==> Clocks(p)[i] == ClockAt(p, 24 * i)
    decreases |p|
  {
    if |p| < 24 {
    } else if i == 0 {
      ClocksExactly(p[24..], 0);
    } else {
      ClocksExactly(p[24..], i - 1);
      if i < |p| / 24 {
        ClockAhead(p, 24 * (i - 1));
      }
    }
  }

  lemma WordAhead(p: seq<byte>, n: nat, at: nat)
    requires n + at + 4 <= |p|
    ensures RdU32(p[n..], at) == RdU32(p, n + at)
  {
    assert p[n..][at..at + 4] == p[n + at..n + at + 4];
  }

  lemma ClockAhead(p: seq<byte>, i: nat)
    requires 24 + i + 24 <= |p|
    ensures ClockAt(p[24..], i) == ClockAt(p, 24 + i)
  {
    WordAhead(p, 24, i);
    WordAhead(p, 24, i + 4);
    WordAhead(p, 24, i + 8);
  }

  // ---------------------------------------------------------------------------- a cut PDO

  lemma {:induction false} EntriesThenShort(es: seq<PdoEntry>, rest: seq<byte>, count: nat)
    requires |rest| < 8 && |es| <= count
    ensures Entries(EntriesBytes(es) + rest, count) == es
  {
    if es == [] {
      assert EntriesBytes(es) + rest == rest;
    } else {
      var tail := EntriesBytes(es[1..]) + rest;
      assert EntriesBytes(es) + rest == EntryBytes(es[0]) + tail;
      EntryIsRead(es[0], tail);
      assert (EntryBytes(es[0]) + tail)[8..] == tail;
      EntriesThenShort(es[1..], rest, count - 1);
      assert [es[0]] + es[1..] == es;
    }
  }

  lemma {:induction false} EntriesInTwo(es: seq<PdoEntry>, k: nat)
    requires k <= |es|
    ensures EntriesBytes(es) == EntriesBytes(es[..k]) + EntriesBytes(es[k..])
  {
    if k == 0 {
      assert es[..0] == [] && es[0..] == es;
    } else {
      EntriesInTwo(es[1..], k - 1);
      assert es[..k][1..] == es[1..][..k - 1] && es[1..][k - 1..] == es[k..];
      Associative(EntryBytes(es[0]), EntriesBytes(es[..k][1..]), EntriesBytes(es[k..]));
    }
  }

  /** What is left of a PDO of which there are only n bytes: nothing without its own eight, and then it
      keeps the number it declares and has the entries that are whole. */
  function CutPdo(p: Pdo, n: nat): seq<Pdo>
    requires n < 8 + 8 * |p.entries|
  {
    if n < 8 then [] else [p.(entries := p.entries[..(n - 8) / 8])]
  }

  lemma CutEntries(es: seq<PdoEntry>, m: nat) returns (rest: seq<byte>)
    requires m < 8 * |es|
    ensures |rest| < 8 && EntriesBytes(es)[..m] == EntriesBytes(es[..m / 8]) + rest
  {
    var k := m / 8;
    EntriesInTwo(es, k);
    rest := EntriesBytes(es[k..])[..m - 8 * k];
  }

  lemma CutPdoIsRead(p: Pdo, n: nat)
    requires |p.entries| == p.nEntry && n < 8 + 8 * |p.entries|
    ensures Pdos((PdoHead(p) + EntriesBytes(p.entries))[..n]) == CutPdo(p, n)
  {
    var b := (PdoHead(p) + EntriesBytes(p.entries))[..n];
    if n >= 8 {
      var rest := CutEntries(p.entries, n - 8);
      var es := p.entries[..(n - 8) / 8];
      var entries := EntriesBytes(es) + rest;
      assert b == PdoHead(p) + EntriesBytes(p.entries)[..n - 8];
      PdoHeadIsRead(p, entries);
      EntriesThenShort(es, rest, p.nEntry);
      assert b[8..] == entries;
      assert FirstPdo(b) == p.(entries := es);
      assert b[8 + 8 * |es|..] == rest;
      assert Pdos(rest) == [];
    }
  }

  lemma PayloadFirst(ps: seq<Pdo>, rest: seq<byte>)
    requires ps != []
    ensures PdosPayload(ps) + rest
         == PdoHead(ps[0]) + EntriesBytes(ps[0].entries) + (PdosPayload(ps[1..]) + rest)
  {
    Associative(PdoHead(ps[0]) + EntriesBytes(ps[0].entries), PdosPayload(ps[1..]), rest);
  }

  lemma FirstAndOthers(ps: seq<Pdo>, more: seq<Pdo>)
    requires ps != []
    ensures [ps[0]] + (ps[1..] + more) == ps + more
  {
  }

  /** The payload of `ps` and the bytes behind it are read one after the other. */
  ghost predicate ReadThen(ps: seq<Pdo>, rest: seq<byte>) { Pdos(PdosPayload(ps) + rest) == ps + Pdos(rest) }

  lemma {:induction false} PdosThen(ps: seq<Pdo>, rest: seq<byte>)
    requires Complete(ps)
    ensures ReadThen(ps, rest)
  {
    if ps == [] {
      assert PdosPayload(ps) + rest == rest;
      assert [] + Pdos(rest) == Pdos(rest);
    } else {
      PdosThen(ps[1..], rest);
      PdosThenOne(ps, rest);
    }
  }

  lemma PdosThenOne(ps: seq<Pdo>, rest: seq<byte>)
    requires ps != [] && |ps[0].entries| == ps[0].nEntry && ReadThen(ps[1..], rest)
    ensures ReadThen(ps, rest)
  {
    PayloadFirst(ps, rest);
    PdoIsRead(ps[0], PdosPayload(ps[1..]) + rest);
    FirstAndOthers(ps, Pdos(rest));
  }

  /** A PDO list that ends inside a PDO: the ones before it are read whole, and it is cut. */
  lemma CutPdoList(ps: seq<Pdo>, p: Pdo, n: nat)
    requires Complete(ps) && |p.entries| == p.nEntry && n < 8 + 8 * |p.entries|
    ensures Pdos(PdosPayload(ps) + (PdoHead(p) + EntriesBytes(p.entries))[..n]) == ps + CutPdo(p, n)
  {
    PdosThen(ps, (PdoHead(p) + EntriesBytes(p.entries))[..n]);
    CutPdoIsRead(p, n);
  }

  // ---------------------------------------------------------------------------- a cut string

  predicate AllShort(ts: seq<Text>) { forall i | 0 <= i < |ts| :: |ts[i].bytes| < 256 }

  ghost predicate TextStands(p: seq<byte>, at: nat, t: Text) {
    && at + 1 + |t.bytes| <= |p| && |t.bytes| < 256
    && p[at] == |t.bytes| && p[at + 1..at + 1 + |t.bytes|] == t.bytes
  }

  /** The strings stand one behind the other from `at` up to `to`. */
  ghost predicate TextsStand(p: seq<byte>, at: nat, ts: seq<Text>, to: nat)
    decreases |ts|
  {
    if ts == [] then at == to else TextStands(p, at, ts[0]) && TextsStand(p, at + 1 + |ts[0].bytes|, ts[1..], to)
  }

  /** They are read, and then what stands at `to`. */
  ghost predicate TextsRead(p: seq<byte>, at: nat, ts: seq<Text>, to: nat, more: nat) {
    StringsAt(p, at, |ts| + more) == ts + StringsAt(p, to, more)
  }

  lemma TextReadFirst(p: seq<byte>, at: nat, ts: seq<Text>, to: nat, more: nat)
    requires ts != [] && TextStands(p, at, ts[0]) && TextsRead(p, at + 1 + |ts[0].bytes|, ts[1..], to, more)
    ensures TextsRead(p, at, ts, to, more)
  {
    var rest := StringsAt(p, to, more);
    assert TextAt(p, at) == ts[0] && After(p, at) == at + 1 + |ts[0].bytes|;
    assert [ts[0]] + (ts[1..] + rest) == ts + rest;
  }

  lemma {:induction false} StandingTextsAreRead(p: seq<byte>, at: nat, ts: seq<Text>, to: nat, more: nat)
    requires TextsStand(p, at, ts, to)
    ensures TextsRead(p, at, ts, to, more)
    decreases |ts|
  {
    if ts == [] {
      assert [] + StringsAt(p, to, more) == StringsAt(p, to, more);
    } else {
      StandingTextsAreRead(p, at + 1 + |ts[0].bytes|, ts[1..], to, more);
      TextReadFirst(p, at, ts, to, more);
    }
  }

  lemma WrittenTextStands(p: seq<byte>, at: nat, t: Text)
    requires |t.bytes| < 256 && at + 1 + |t.bytes| <= |p|
    requires p[at..at + 1 + |t.bytes|] == [|t.bytes|] + t.bytes
    ensures TextStands(p, at, t)
  {
    var b := p[at..at + 1 + |t.bytes|];
    assert b[0] == p[at] && b[1..] == p[at + 1..at + 1 + |t.bytes|];
  }

  lemma {:induction false} WrittenTextsStand(p: seq<byte>, at: nat, ts: seq<Text>)
    requires AllShort(ts) && at <= |p| && TextsBytes(ts) <= p[at..]
    ensures TextsStand(p, at, ts, at + |TextsBytes(ts)|)
    decreases |ts|
  {
    if ts == [] {
    } else {
      PrefixParts(p, at, [|ts[0].bytes|] + ts[0].bytes, TextsBytes(ts[1..]));
      WrittenTextStands(p, at, ts[0]);
      WrittenTextsStand(p, at + 1 + |ts[0].bytes|, ts[1..]);
    }
  }

  /** What is left of a string of which there are only n bytes, its length byte included. */
  function CutText(t: Text, n: nat): seq<Text>
    requires n <= |t.bytes|
  {
    if n == 0 then [] else [Text(t.bytes[..n - 1])]
  }

  lemma CutTextIsRead(p: seq<byte>, at: nat, t: Text, n: nat, more: nat)
    requires n <= |t.bytes| < 256 && at + n == |p|
    requires n > 0 ==> p[at] == |t.bytes| && p[at + 1..] == t.bytes[..n - 1]
    ensures StringsAt(p, at, more + 1) == CutText(t, n)
  {
    if n > 0 {
      assert p[at + 1..at + n] == p[at + 1..];
      assert TextAt(p, at) == Text(t.bytes[..n - 1]);
      assert StringsAt(p, After(p, at), more) == [];
    }
  }

  lemma CutTableRead(p: seq<byte>, count: byte, ts: seq<Text>, at: nat, t: Text, n: nat)
    requires AllShort(ts) && p != [] && p[0] == count && |ts| < count && at == 1 + |TextsBytes(ts)|
    requires TextsBytes(ts) <= p[1..] && n <= |t.bytes| < 256 && at + n == |p|
    requires n > 0 ==> p[at] == |t.bytes| && p[at + 1..] == t.bytes[..n - 1]
    ensures Strings(p) == ts + CutText(t, n)
  {
    WrittenTextsStand(p, 1, ts);
    StandingTextsAreRead(p, 1, ts, at, count - |ts|);
    CutTextIsRead(p, at, t, n, count - |ts| - 1);
  }

  lemma CutPlaces(p: seq<byte>, count: byte, texts: seq<byte>, text: seq<byte>, n: nat)
    requires n < |text| && p == [count] + texts + text[..n]
    ensures p != [] && p[0] == count && texts <= p[1..] && 1 + |texts| + n == |p|
    ensures n > 0 ==> p[1 + |texts|] == text[0] && p[2 + |texts|..] == text[1..][..n - 1]
  {
    assert p[1..] == texts + text[..n];
  }

  /** A string table that ends inside a string: the ones before it are read whole, the bytes there are of
      it are a shorter string, and whatever else the count announces is not there. */
  lemma CutStringTable(p: seq<byte>, count: byte, ts: seq<Text>, t: Text, n: nat)
    requires AllShort(ts) && n <= |t.bytes| < 256 && |ts| < count
    requires p == [count] + TextsBytes(ts) + ([|t.bytes|] + t.bytes)[..n]
    ensures Strings(p) == ts + CutText(t, n)
  {
    var text := [|t.bytes|] + t.bytes;
    CutPlaces(p, count, TextsBytes(ts), text, n);
    assert text[1..] == t.bytes;
    CutTableRead(p, count, ts, 1 + |TextsBytes(ts)|, t, n);
  }
}
