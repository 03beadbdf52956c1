/** One EtherCAT frame as it sits on the wire. */
module EtherCatFrames {
  import opened Bytes

  const ETHERNET_HEADER_BYTES: nat := 14
  const ETHERCAT_HEADER_BYTES: nat := 2
  const DATAGRAM_HEADER_BYTES: nat := 10
  const WORKING_COUNTER_BYTES: nat := 2
  const ETHERCAT_ETHER_TYPE: nat := 0x88A4

  datatype Datagram = Datagram(command: byte, index: byte, adp: u16, ado: u16, length: nat,
                               more: bool, wkc: u16)

  datatype EtherCatFrame = EtherCatFrame(fromMaster: bool, datagrams: seq<Datagram>)

  /** ETG.1000.4 Table 9: LRD, LWR and LRW. */
  predicate IsLogicalCommand(command: byte) { 10 <= command <= 12 }

  /** ETG.1000.4 Table 9: APRD, APWR, APRW, BRD, BWR, BRW and ARMW. */
  predicate IsPositionCountedUp(command: byte) {
    command == 1 || command == 2 || command == 3 || command == 7 || command == 8 || command == 9
    || command == 13
  }

  /** The datagram whose header starts at `at`: 11 bits of length, the top bit for another one. */
  function DatagramAt(b: seq<byte>, at: nat): (d: Datagram)
    requires at + DATAGRAM_HEADER_BYTES <= |b|
    requires at + DATAGRAM_HEADER_BYTES + ReadU16(b, at + 6) % 0x800 + WORKING_COUNTER_BYTES <= |b|
    ensures d.length < 0x800
  {
    var length := ReadU16(b, at + 6) % 0x800;
    Datagram(b[at], b[at + 1], ReadU16(b, at + 2), ReadU16(b, at + 4), length,
             ReadU16(b, at + 6) >= 0x8000, ReadU16(b, at + DATAGRAM_HEADER_BYTES + length))
  }

  /** The bytes a datagram takes in the frame. */
  function Size(d: Datagram): nat { DATAGRAM_HEADER_BYTES + d.length + WORKING_COUNTER_BYTES }

  function DatagramFits(b: seq<byte>, at: nat, end: nat): bool
    requires end <= |b|
  {
    at + DATAGRAM_HEADER_BYTES <= end
    && at + DATAGRAM_HEADER_BYTES + ReadU16(b, at + 6) % 0x800 + WORKING_COUNTER_BYTES <= end
  }

  /** The datagrams from `at` on, or None when one does not fit before `end`. */
  function Datagrams(b: seq<byte>, at: nat, end: nat): (r: Option<seq<Datagram>>)
    requires end <= |b|
    ensures r.Some? ==> r.value != []
    decreases end - at
  {
    if !DatagramFits(b, at, end) then None else
      var d := DatagramAt(b, at);
      if !d.more then Some([d]) else
        Behind([d], Datagrams(b, at + Size(d), end))
  }

  /** The datagrams read so far and the ones that follow, if they can be read. */
  function Behind(ds: seq<Datagram>, rest: Option<seq<Datagram>>): Option<seq<Datagram>> {
    match rest
    case None => None
    case Some(es) => Some(ds + es)
  }

  lemma BehindBehind(ds: seq<Datagram>, es: seq<Datagram>, rest: Option<seq<Datagram>>)
    ensures Behind(ds, Behind(es, rest)) == Behind(ds + es, rest)
    ensures Behind([], rest) == rest
  {
    if rest.Some? {
      assert ds + (es + rest.value) == ds + es + rest.value;
      assert [] + rest.value == rest.value;
    }
  }

  /** Where the datagrams end, when the frame is one of EtherCAT commands and long enough. */
  function CommandsEnd(b: seq<byte>): (r: Option<nat>)
    ensures r.Some? ==> ETHERNET_HEADER_BYTES + ETHERCAT_HEADER_BYTES <= r.value <= |b|
  {
    if |b| < ETHERNET_HEADER_BYTES + ETHERCAT_HEADER_BYTES || Word(b[13], b[12]) != ETHERCAT_ETHER_TYPE
    then None else
      var header := ReadU16(b, ETHERNET_HEADER_BYTES);
      var end := ETHERNET_HEADER_BYTES + ETHERCAT_HEADER_BYTES + header % 0x800;
      if header / 0x1000 != 1 || end > |b| then None else Some(end)
  }

  /** The locally administered bit of the source MAC is clear until a slave has processed the frame. */
  function FrameOf(b: seq<byte>): (r: Option<EtherCatFrame>)
    ensures r.Some? ==> r.value.datagrams != []
  {
    match CommandsEnd(b)
    case None => None
    case Some(end) =>
      match Datagrams(b, ETHERNET_HEADER_BYTES + ETHERCAT_HEADER_BYTES, end)
      case None => None
      case Some(ds) => Some(EtherCatFrame((b[6] / 2) % 2 == 0, ds))
  }

  method ReadDatagrams(b: seq<byte>, start: nat, end: nat) returns (r: Option<seq<Datagram>>)
    requires end <= |b|
    ensures r == Datagrams(b, start, end)
  {
    var at := start;
    var datagrams: seq<Datagram> := [];
    var more := true;
    BehindBehind([], [], Datagrams(b, start, end));
    while more
      invariant Datagrams(b, start, end) ==
        if more then Behind(datagrams, Datagrams(b, at, end)) else Some(datagrams)
      decreases more, end - at
    {
      if !DatagramFits(b, at, end) {
        return None;
      }
      var d := DatagramAt(b, at);
      BehindBehind(datagrams, [d], Datagrams(b, at + Size(d), end));
      at := at + Size(d);
      more := d.more;
      datagrams := datagrams + [d];
    }
    r := Some(datagrams);
  }

  method ParseEtherCatFrame(b: seq<byte>) returns (r: Option<EtherCatFrame>)
    ensures r == FrameOf(b)
  {
    var end := CommandsEnd(b);
    if end.None? {
      return None;
    }
    var datagrams := ReadDatagrams(b, ETHERNET_HEADER_BYTES + ETHERCAT_HEADER_BYTES, end.value);
    if datagrams.None? {
      return None;
    }
    r := Some(EtherCatFrame((b[6] / 2) % 2 == 0, datagrams.value));
  }

  function TotalSize(ds: seq<Datagram>): nat {
    if ds == [] then 0 else Size(ds[0]) + TotalSize(ds[1..])
  }

  /** A frame's datagrams lie one behind the other inside the length its header gives, and each one
      but the last announces the next. */
  lemma {:induction false} DatagramsFit(b: seq<byte>, at: nat, end: nat)
    requires at <= end <= |b| && Datagrams(b, at, end).Some?
    ensures var ds := Datagrams(b, at, end).value;
      && at + TotalSize(ds) <= end
      && (forall k :: 0 <= k < |ds| ==> (ds[k].more <==> k < |ds| - 1))
    decreases end - at
  {
    var d := DatagramAt(b, at);
    if d.more {
      DatagramsFit(b, at + Size(d), end);
      var rest := Datagrams(b, at + Size(d), end).value;
      assert ([d] + rest)[1..] == rest;
    } else {
      assert [d][1..] == [];
    }
  }
}
