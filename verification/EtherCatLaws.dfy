/** Composing an EtherCAT frame and parsing it again. */
module EtherCatLaws {
  import opened Bytes
  import opened EtherCatFrames

  /** A datagram with all that its wire form carries beside it. `spare` is bits 11 to 14 of the length
      field, bit 14 the one that says the frame is circulating. */
  datatype Wire = Wire(datagram: Datagram, spare: nat, irq: u16, data: seq<byte>)

  predicate Sound(w: Wire) { w.datagram.length == |w.data| && |w.data| < 0x800 && w.spare < 16 }

  predicate AllSound(ws: seq<Wire>) { forall i | 0 <= i < |ws| :: Sound(ws[i]) }

  /** Each datagram but the last announces another one. */
  predicate Chained(ws: seq<Wire>) { forall i | 0 <= i < |ws| :: ws[i].datagram.more <==> i < |ws| - 1 }

  function LengthField(w: Wire): u16
    requires Sound(w)
  {
    |w.data| + 0x800 * w.spare + if w.datagram.more then 0x8000 else 0
  }

  function WireHead(w: Wire): (b: seq<byte>)
    requires Sound(w)
    ensures |b| == DATAGRAM_HEADER_BYTES
  {
    var d, n := w.datagram, LengthField(w);
    [d.command, d.index, Low(d.adp), High(d.adp), Low(d.ado), High(d.ado), Low(n), High(n), Low(w.irq), High(w.irq)]
  }

  function WireBytes(w: Wire): (b: seq<byte>)
    requires Sound(w)
    ensures |b| == Size(w.datagram)
  {
    WireHead(w) + w.data + [Low(w.datagram.wkc), High(w.datagram.wkc)]
  }

  function WiresBytes(ws: seq<Wire>): seq<byte>
    requires AllSound(ws)
  {
    if ws == [] then [] else WireBytes(ws[0]) + WiresBytes(ws[1..])
  }

  function DatagramsOf(ws: seq<Wire>): (ds: seq<Datagram>)
    ensures |ds| == |ws|
  {
    if ws == [] then [] else [ws[0].datagram] + DatagramsOf(ws[1..])
  }

  lemma LengthFieldParts(length: nat, spare: nat, more: bool)
    requires length < 0x800 && spare < 16
    ensures var n := length + 0x800 * spare + if more then 0x8000 else 0;
            n % 0x800 == length && (n >= 0x8000 <==> more)
  {
    var turns := spare + if more then 16 else 0;
    assert length + 0x800 * spare + (if more then 0x8000 else 0) == length + 0x800 * turns;
  }

  lemma WordIsRead(b: seq<byte>, at: nat, w: u16)
    requires at + 2 <= |b| && b[at] == Low(w) && b[at + 1] == High(w)
    ensures ReadU16(b, at) == w
  {
    WordOfParts(w);
  }

  /** The fields of a datagram as they stand in a frame. */
  ghost predicate Stands(b: seq<byte>, at: nat, w: Wire) {
    && Sound(w)
    && at + Size(w.datagram) <= |b|
    && b[at] == w.datagram.command && b[at + 1] == w.datagram.index
    && ReadU16(b, at + 2) == w.datagram.adp && ReadU16(b, at + 4) == w.datagram.ado
    && ReadU16(b, at + 6) == LengthField(w)
    && ReadU16(b, at + DATAGRAM_HEADER_BYTES + |w.data|) == w.datagram.wkc
  }

  lemma WireStands(b: seq<byte>, at: nat, w: Wire)
    requires Sound(w) && at + Size(w.datagram) <= |b|
    requires b[at..at + Size(w.datagram)] == WireBytes(w)
    ensures Stands(b, at, w)
  {
    var part, head, n := WireBytes(w), WireHead(w), |w.data|;
    assert forall i | 0 <= i < 10 :: b[at + i] == part[i] == head[i];
    WordIsRead(b, at + 2, w.datagram.adp);
    WordIsRead(b, at + 4, w.datagram.ado);
    WordIsRead(b, at + 6, LengthField(w));
    assert b[at + 10 + n] == part[10 + n] && b[at + 10 + n + 1] == part[10 + n + 1];
    WordIsRead(b, at + DATAGRAM_HEADER_BYTES + n, w.datagram.wkc);
  }

  lemma StandingIsRead(b: seq<byte>, at: nat, end: nat, w: Wire)
    requires Stands(b, at, w) && at + Size(w.datagram) <= end <= |b|
    ensures DatagramFits(b, at, end) && DatagramAt(b, at) == w.datagram
  {
    LengthFieldParts(|w.data|, w.spare, w.datagram.more);
  }

  lemma ChainedTail(ws: seq<Wire>)
    requires Chained(ws) && ws != []
    ensures ws[0].datagram.more <==> |ws| > 1
    ensures Chained(ws[1..])
  {
    var rest := ws[1..];
    forall i | 0 <= i < |rest| ensures rest[i].datagram.more <==> i < |rest| - 1 {
      assert rest[i] == ws[i + 1];
    }
  }

  lemma {:induction false} WiresAreRead(b: seq<byte>, at: nat, end: nat, ws: seq<Wire>)
    requires ws != [] && AllSound(ws) && Chained(ws)
    requires at <= |b| && WiresBytes(ws) <= b[at..] && at + |WiresBytes(ws)| <= end <= |b|
    ensures Datagrams(b, at, end) == Some(DatagramsOf(ws))
    decreases |ws|
  {
    var w, rest := ws[0], ws[1..];
    PrefixParts(b, at, WireBytes(w), WiresBytes(rest));
    WireStands(b, at, w);
    StandingIsRead(b, at, end, w);
    ChainedTail(ws);
    if rest == [] {
      assert DatagramsOf(ws) == [w.datagram];
    } else {
      WiresAreRead(b, at + Size(w.datagram), end, rest);
    }
  }

  /** The 16 bytes before the datagrams: both addresses, the EtherType and the EtherCAT header with its
      reserved bit. */
  function FrameHead(macs: seq<byte>, reserved: bool, length: nat): (b: seq<byte>)
    requires |macs| == 12 && length < 0x800
    ensures |b| == 16
  {
    var h := 0x1000 + length + if reserved then 0x800 else 0;
    macs + [0x88, 0xA4, Low(h), High(h)]
  }

  lemma HeadParts(length: nat, reserved: bool)
    requires length < 0x800
    ensures var h := 0x1000 + length + if reserved then 0x800 else 0;
            h % 0x800 == length && h / 0x1000 == 1
  {
  }

  lemma HeadBytes(b: seq<byte>, head: seq<byte>, macs: seq<byte>, x: seq<byte>)
    requires |macs| == 12 && |x| == 4 && head == macs + x && |b| >= 16 && b[..16] == head
    ensures b[6] == macs[6] && b[12] == x[0] && b[13] == x[1] && b[14] == x[2] && b[15] == x[3]
  {
    assert b[6] == head[6] && b[12] == head[12] && b[13] == head[13] && b[14] == head[14] && b[15] == head[15];
  }

  lemma HeadIsRead(b: seq<byte>, macs: seq<byte>, reserved: bool, length: nat)
    requires |macs| == 12 && length < 0x800 && 16 + length <= |b|
    requires b[..16] == FrameHead(macs, reserved, length)
    ensures CommandsEnd(b) == Some(16 + length) && b[6] == macs[6]
  {
    var h := 0x1000 + length + if reserved then 0x800 else 0;
    HeadBytes(b, FrameHead(macs, reserved, length), macs, [0x88, 0xA4, Low(h), High(h)]);
    WordIsRead(b, 14, h);
    HeadParts(length, reserved);
    EndIs(b, h, length);
  }

  lemma EndIs(b: seq<byte>, h: u16, length: nat)
    requires |b| >= 16 + length && b[12] == 0x88 && b[13] == 0xA4 && ReadU16(b, 14) == h
    requires h % 0x800 == length && h / 0x1000 == 1
    ensures CommandsEnd(b) == Some(16 + length)
  {
  }

  lemma FrameFollows(b: seq<byte>, end: nat, ds: seq<Datagram>)
    requires CommandsEnd(b) == Some(end) && Datagrams(b, 16, end) == Some(ds)
    ensures FrameOf(b) == Some(EtherCatFrame(b[6] / 2 % 2 == 0, ds))
  {
  }

  lemma FrameIsRead(b: seq<byte>, end: nat, ws: seq<Wire>)
    requires CommandsEnd(b) == Some(end)
    requires ws != [] && AllSound(ws) && Chained(ws)
    requires 16 + |WiresBytes(ws)| <= end && WiresBytes(ws) <= b[16..]
    ensures FrameOf(b) == Some(EtherCatFrame(b[6] / 2 % 2 == 0, DatagramsOf(ws)))
  {
    WiresAreRead(b, 16, end, ws);
    FrameFollows(b, end, DatagramsOf(ws));
  }

  lemma Behind(head: seq<byte>, wires: seq<byte>, slack: seq<byte>, padding: seq<byte>)
    requires |head| == 16
    ensures var b := head + (wires + slack) + padding; b[..16] == head && wires <= b[16..]
  {
    var b := head + (wires + slack) + padding;
    assert b[16..] == wires + (slack + padding);
  }

  /** Any datagrams composed into a frame, with whatever addresses, spare bits, data, bytes between the
      last datagram and the frame's own length, and padding behind it, are what the parser returns. */
  lemma FrameRoundTrip(macs: seq<byte>, reserved: bool, ws: seq<Wire>, slack: seq<byte>, padding: seq<byte>)
    requires |macs| == 12
    requires ws != [] && AllSound(ws) && Chained(ws) && |WiresBytes(ws) + slack| < 0x800
    ensures FrameOf(FrameHead(macs, reserved, |WiresBytes(ws) + slack|) + (WiresBytes(ws) + slack) + padding)
         == Some(EtherCatFrame(macs[6] / 2 % 2 == 0, DatagramsOf(ws)))
  {
    var body := WiresBytes(ws) + slack;
    var head := FrameHead(macs, reserved, |body|);
    var b := head + body + padding;
    Behind(head, WiresBytes(ws), slack, padding);
    HeadIsRead(b, macs, reserved, |body|);
    FrameIsRead(b, 16 + |body|, ws);
  }

  // -------------------------------------------------------------------- exactly which are refused

  /** The eleven bits of length in the EtherCAT header. */
  function LengthGiven(b: seq<byte>): nat
    requires |b| >= 16
  {
    (b[14] as int) + 256 * ((b[15] as int) % 8)
  }

  /** The header part of the refusals, by the bytes: too short, another EtherType, another EtherCAT type
      or a length that runs past the end. */
  lemma HeaderIsRefusedExactly(b: seq<byte>)
    ensures CommandsEnd(b).None? <==>
      |b| < 16 || b[12] != 0x88 || b[13] != 0xA4 || b[15] / 16 != 1 || 16 + LengthGiven(b) > |b|
    ensures CommandsEnd(b).Some? ==> CommandsEnd(b).value == 16 + LengthGiven(b)
  {
    if |b| >= 16 {
      HeaderWordParts(b[14], b[15]);
    }
  }

  lemma HeaderWordParts(lo: byte, hi: byte)
    ensures Word(lo, hi) % 0x800 == lo + 256 * (hi % 8) && Word(lo, hi) / 0x1000 == hi / 16
  {
    var l: int, h: int := lo, hi;
    Divided(l + 256 * (h % 8), h / 8, 0x800);
    Divided(l + 256 * (h % 16), h / 16, 0x1000);
    assert l + 256 * (h % 8) + 0x800 * (h / 8) == l + 256 * h;
    assert l + 256 * (h % 16) + 0x1000 * (h / 16) == l + 256 * h;
  }

  lemma Divided(low: nat, high: nat, unit: nat)
    requires low < unit && (unit == 0x800 || unit == 0x1000)
    ensures (low + unit * high) % unit == low && (low + unit * high) / unit == high
  {
  }

  /** All that a frame is composed of. */
  datatype Composition = Composition(macs: seq<byte>, reserved: bool, ws: seq<Wire>, slack: seq<byte>,
                                     padding: seq<byte>)

  predicate Composes(c: Composition) {
    && |c.macs| == 12 && c.ws != [] && AllSound(c.ws) && Chained(c.ws)
    && |WiresBytes(c.ws) + c.slack| < 0x800
  }

  function FrameBytes(c: Composition): seq<byte>
    requires Composes(c)
  {
    FrameHead(c.macs, c.reserved, |WiresBytes(c.ws) + c.slack|) + (WiresBytes(c.ws) + c.slack) + c.padding
  }

  lemma CompositionIsRead(c: Composition)
    requires Composes(c)
    ensures FrameOf(FrameBytes(c)) == Some(EtherCatFrame(c.macs[6] / 2 % 2 == 0, DatagramsOf(c.ws)))
  {
    FrameRoundTrip(c.macs, c.reserved, c.ws, c.slack, c.padding);
  }

  /** The wire form of the datagram at `at`. */
  function WireAt(b: seq<byte>, at: nat, end: nat): Wire
    requires end <= |b| && DatagramFits(b, at, end)
  {
    var d := DatagramAt(b, at);
    Wire(d, ReadU16(b, at + 6) / 0x800 % 16, ReadU16(b, at + 8), b[at + 10..at + 10 + d.length])
  }

  function WiresAt(b: seq<byte>, at: nat, end: nat): (ws: seq<Wire>)
    requires end <= |b| && Datagrams(b, at, end).Some?
    ensures ws != []
    decreases end - at
  {
    var w := WireAt(b, at, end);
    if w.datagram.more then [w] + WiresAt(b, at + Size(w.datagram), end) else [w]
  }

  lemma FieldParts(n: u16)
    ensures n % 0x800 + 0x800 * (n / 0x800 % 16) + (if n >= 0x8000 then 0x8000 else 0) == n
  {
    var m: int := n;
    assert m == m % 0x800 + 0x800 * (m / 0x800);
    assert m / 0x800 == m / 0x800 % 16 + if m >= 0x8000 then 16 else 0;
  }

  lemma WordStands(b: seq<byte>, at: nat)
    requires at + 2 <= |b|
    ensures Low(ReadU16(b, at)) == b[at] && High(ReadU16(b, at)) == b[at + 1]
  {
    PartsOfWord(b[at], b[at + 1]);
  }

  lemma LengthFieldIs(w: Wire, n: u16)
    requires Sound(w) && |w.data| == n % 0x800 && w.spare == n / 0x800 % 16 && (w.datagram.more <==> n >= 0x8000)
    ensures LengthField(w) == n
  {
    FieldParts(n);
  }

  lemma HeadIs(w: Wire, b: seq<byte>, at: nat)
    requires Sound(w) && at + 10 <= |b| && b[at] == w.datagram.command && b[at + 1] == w.datagram.index
    requires ReadU16(b, at + 2) == w.datagram.adp && ReadU16(b, at + 4) == w.datagram.ado
    requires ReadU16(b, at + 6) == LengthField(w) && ReadU16(b, at + 8) == w.irq
    ensures WireHead(w) == b[at..at + 10]
  {
    WordStands(b, at + 2);
    WordStands(b, at + 4);
    WordStands(b, at + 6);
    WordStands(b, at + 8);
  }

  lemma HeadStands(b: seq<byte>, at: nat, end: nat)
    requires end <= |b| && DatagramFits(b, at, end)
    ensures Sound(WireAt(b, at, end)) && WireHead(WireAt(b, at, end)) == b[at..at + 10]
  {
    var w := WireAt(b, at, end);
    LengthFieldIs(w, ReadU16(b, at + 6));
    HeadIs(w, b, at);
  }

  lemma WireWasThere(b: seq<byte>, at: nat, end: nat)
    requires end <= |b| && DatagramFits(b, at, end)
    ensures var w := WireAt(b, at, end);
      Sound(w) && at + Size(w.datagram) <= end && WireBytes(w) == b[at..at + Size(w.datagram)]
  {
    HeadStands(b, at, end);
    var n := DatagramAt(b, at).length;
    WordStands(b, at + 10 + n);
    InThree(b, at, at + 10, at + 10 + n, at + 12 + n);
  }

  lemma InThree(b: seq<byte>, i: nat, j: nat, k: nat, l: nat)
    requires i <= j <= k <= l <= |b|
    ensures b[i..l] == b[i..j] + b[j..k] + b[k..l]
  {
  }

  /** `ws` are the wire forms of the datagrams `ds`, and stand between `at` and `end`. */
  predicate Occupy(b: seq<byte>, at: nat, end: nat, ws: seq<Wire>, ds: seq<Datagram>) {
    && at <= end <= |b|
    && ws != [] && AllSound(ws) && Chained(ws) && DatagramsOf(ws) == ds
    && at + |WiresBytes(ws)| <= end && WiresBytes(ws) == b[at..at + |WiresBytes(ws)|]
  }

  lemma LastOccupies(b: seq<byte>, at: nat, end: nat, w: Wire)
    requires Sound(w) && !w.datagram.more
    requires at + Size(w.datagram) <= end <= |b| && WireBytes(w) == b[at..at + Size(w.datagram)]
    ensures Occupy(b, at, end, [w], [w.datagram])
  {
    assert [w][1..] == [];
    assert WiresBytes([w]) == WireBytes(w) + [] == WireBytes(w);
    assert DatagramsOf([w]) == [w.datagram] + [];
  }

  lemma MoreBytes(w: Wire, ws: seq<Wire>)
    requires Sound(w) && AllSound(ws)
    ensures AllSound([w] + ws) && WiresBytes([w] + ws) == WireBytes(w) + WiresBytes(ws)
    ensures DatagramsOf([w] + ws) == [w.datagram] + DatagramsOf(ws)
  {
    assert ([w] + ws)[1..] == ws;
  }

  lemma MoreOccupy(b: seq<byte>, at: nat, next: nat, end: nat, w: Wire, ws: seq<Wire>, ds: seq<Datagram>)
    requires Sound(w) && w.datagram.more && at <= next && next == at + Size(w.datagram)
    requires Occupy(b, next, end, ws, ds) && WireBytes(w) == b[at..next]
    ensures Occupy(b, at, end, [w] + ws, [w.datagram] + ds)
  {
    MoreBytes(w, ws);
    Adjoin(b, at, next, next + |WiresBytes(ws)|);
  }

  lemma Adjoin(b: seq<byte>, i: nat, j: nat, k: nat)
    requires i <= j <= k <= |b|
    ensures b[i..j] + b[j..k] == b[i..k]
  {
  }

  /** The datagrams the parser read stand there in their wire form. */
  lemma {:induction false} WiresWereThere(b: seq<byte>, at: nat, end: nat)
    requires at <= end <= |b| && Datagrams(b, at, end).Some?
    ensures Occupy(b, at, end, WiresAt(b, at, end), Datagrams(b, at, end).value)
    decreases end - at
  {
    var w := WireAt(b, at, end);
    WireWasThere(b, at, end);
    if w.datagram.more {
      var next := at + Size(w.datagram);
      WiresWereThere(b, next, end);
      MoreOccupy(b, at, next, end, w, WiresAt(b, next, end), Datagrams(b, next, end).value);
    } else {
      LastOccupies(b, at, end, w);
    }
  }

  /** The bit between the length and the type. */
  function ReservedBit(b: seq<byte>): bool
    requires |b| >= 16
  {
    ReadU16(b, 14) % 0x1000 >= 0x800
  }

  lemma HeadWasThere(b: seq<byte>, end: nat)
    requires CommandsEnd(b) == Some(end)
    ensures end - 16 < 0x800 && b[..16] == FrameHead(b[..12], ReservedBit(b), end - 16)
  {
    HeaderIsRefusedExactly(b);
    TypeOneHeader(ReadU16(b, 14));
    WordStands(b, 14);
    assert b[..16] == b[..12] + [b[12], b[13], b[14], b[15]];
  }

  lemma TypeOneHeader(h: u16)
    requires h / 0x1000 == 1
    ensures h == 0x1000 + h % 0x800 + if h % 0x1000 >= 0x800 then 0x800 else 0
  {
  }

  ghost predicate IsComposition(b: seq<byte>, c: Composition) { Composes(c) && FrameBytes(c) == b }

  /** Every frame the parser accepts is such a composition, so with the round trip it accepts exactly the
      compositions and refuses everything else. */
  lemma AcceptsExactlyCompositions(b: seq<byte>)
    ensures FrameOf(b).Some? <==> exists c :: IsComposition(b, c)
  {
    if FrameOf(b).Some? {
      PartsAreRead(b);
      AcceptedIsComposed(b, CommandsEnd(b).value);
    }
    if c :| IsComposition(b, c) {
      CompositionIsRead(c);
    }
  }

  lemma PartsAreRead(b: seq<byte>)
    requires FrameOf(b).Some?
    ensures CommandsEnd(b).Some? && Datagrams(b, 16, CommandsEnd(b).value).Some?
  {
  }

  lemma Regrouped(b: seq<byte>, n: nat, end: nat)
    requires 16 <= n <= end <= |b|
    ensures b[16..n] + b[n..end] == b[16..end] && b[..16] + b[16..end] + b[end..] == b
  {
  }

  lemma ComposedOf(b: seq<byte>, end: nat, reserved: bool, ws: seq<Wire>, ds: seq<Datagram>, n: nat)
    requires Occupy(b, 16, end, ws, ds) && end - 16 < 0x800 && n == |WiresBytes(ws)|
    requires b[..16] == FrameHead(b[..12], reserved, end - 16)
    ensures IsComposition(b, Composition(b[..12], reserved, ws, b[16 + n..end], b[end..]))
  {
    Regrouped(b, 16 + n, end);
    BytesAre(Composition(b[..12], reserved, ws, b[16 + n..end], b[end..]), b[..16], b[16..end]);
  }

  lemma BytesAre(c: Composition, head: seq<byte>, body: seq<byte>)
    requires |c.macs| == 12 && c.ws != [] && AllSound(c.ws) && Chained(c.ws)
    requires WiresBytes(c.ws) + c.slack == body && |body| < 0x800 && head == FrameHead(c.macs, c.reserved, |body|)
    ensures IsComposition(head + body + c.padding, c)
  {
  }

  lemma AcceptedIsComposed(b: seq<byte>, end: nat)
    requires CommandsEnd(b) == Some(end) && Datagrams(b, 16, end).Some?
    ensures exists c :: IsComposition(b, c)
  {
    HeadWasThere(b, end);
    WiresWereThere(b, 16, end);
    var ws := WiresAt(b, 16, end);
    ComposedOf(b, end, ReservedBit(b), ws, Datagrams(b, 16, end).value, |WiresBytes(ws)|);
  }
}
