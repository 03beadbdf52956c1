/** The capture summary told by the frames on the wire: which return belongs to which send, which kind a
    frame is of, and the whole summary of a send and of what follows it. */
module CaptureWire {
  import opened Bytes
  import opened EtherCatFrames
  import opened EtherCatLaws
  import opened CaptureMatcher
  import opened CaptureSummaries
  import Pcap

  // ------------------------------------------------------------------------- one frame, one item

  function RecordOf(c: Composition, t: int): Record
    requires Composes(c)
  {
    Pcap.Record(t, FrameBytes(c))
  }

  /** The first datagram, the one a frame is known by. */
  function First(c: Composition): Datagram
    requires Composes(c)
  {
    c.ws[0].datagram
  }

  /** The locally administered bit of the source MAC, which the first slave sets. */
  predicate CameBack(c: Composition)
    requires Composes(c)
  {
    c.macs[6] / 2 % 2 == 1
  }

  /** Two datagrams are one on its way out and back: the same index, command, offset and length, and the
      same position unless the slaves count it up (APRD, APWR, APRW, BRD, BWR, BRW, ARMW). */
  predicate SameDatagram(d: Datagram, e: Datagram) {
    && d.index == e.index && d.command == e.command && d.ado == e.ado && d.length == e.length
    && (d.adp == e.adp || d.command in {1, 2, 3, 7, 8, 9, 13})
  }

  /** LRD, LWR or LRW. */
  predicate Logical(d: Datagram) { d.command in {10, 11, 12} }

  lemma ItemOfFrame(c: Composition, t: int)
    requires Composes(c)
    ensures ItemOf(RecordOf(c, t)) == if CameBack(c) then Incoming(t, KeyOf(First(c))) else Outgoing(t, KeyOf(First(c)))
  {
    CompositionIsRead(c);
    assert DatagramsOf(c.ws)[0] == c.ws[0].datagram;
  }

  lemma KeysOfDatagrams(d: Datagram, e: Datagram)
    ensures KeyOf(d) == KeyOf(e) <==> SameDatagram(d, e)
    ensures IsCyclic(KeyOf(d)) <==> Logical(d)
  {
  }

  /** A frame counts as sent exactly while the bit is clear, it is cyclic exactly for a logical command,
      and two frames have one key exactly when they carry the same datagram. With the exact refusals of the
      parser this says of any two records whether one can answer the other. */
  lemma KeysAgreeExactly(c: Composition, d: Composition, t: int, u: int)
    requires Composes(c) && Composes(d)
    ensures var i, j := ItemOf(RecordOf(c, t)), ItemOf(RecordOf(d, u));
      && !i.Foreign? && !j.Foreign? && i.time == t
      && (i.Outgoing? <==> !CameBack(c))
      && (IsCyclic(i.key) <==> Logical(First(c)))
      && (i.key == j.key <==> SameDatagram(First(c), First(d)))
  {
    ItemOfFrame(c, t);
    ItemOfFrame(d, u);
    KeysOfDatagrams(First(c), First(d));
  }

  /** A record that is no composition is foreign, and only that. */
  lemma ForeignExactly(r: Record)
    ensures ItemOf(r).Foreign? <==> !exists c :: IsComposition(r.bytes, c)
  {
    AcceptsExactlyCompositions(r.bytes);
  }

  // ----------------------------------------------------------------------------- two records

  function Bit(b: bool): nat { if b then 1 else 0 }

  lemma CountOfTwo(items: seq<Item>, v: seq<Verdict>, c: Counter)
    requires |v| == |items| == 2 && AnswersBack(v)
    ensures Count(items, v, c) == Bit(Hit(items, v, c, 0)) + Bit(Hit(items, v, c, 1))
  {
    var zero: set<nat> := if Hit(items, v, c, 0) then {0} else {};
    var one: set<nat> := if Hit(items, v, c, 1) then {1} else {};
    assert Hits(items, v, c) == zero + one;
  }

  lemma LatestOfTwo(items: seq<Item>, v: seq<Verdict>, cyclic: bool)
    requires |v| == |items| == 2 && AnswersBack(v) && !v[0].Answer?
    ensures Latest(items, v, cyclic) ==
      if Hit(items, v, Returns(cyclic), 1) && LateUs(items, v, 1) > 0 then LateUs(items, v, 1) else 0
  {
    var i, w := items[..1], v[..1];
    assert Latest(i[..0], w[..0], cyclic) == 0;
    assert Latest(i, w, cyclic) == 0;
  }

  const NOTHING: KindSummary := KindSummary(0, 0, 0, 0, 0, 0, 0, 0)

  lemma KindOfTwo(items: seq<Item>, v: seq<Verdict>, cyclic: bool)
    requires |v| == |items| == 2 && AnswersBack(v) && !v[0].Answer?
    ensures KindTally(items, v, cyclic) == KindSummary(
      Bit(Hit(items, v, Sends(cyclic), 0)) + Bit(Hit(items, v, Sends(cyclic), 1)),
      Bit(Hit(items, v, Resends(cyclic), 0)) + Bit(Hit(items, v, Resends(cyclic), 1)),
      Bit(Hit(items, v, Returns(cyclic), 1)),
      Bit(Hit(items, v, Lost(cyclic), 0)) + Bit(Hit(items, v, Lost(cyclic), 1)),
      Bit(Hit(items, v, Later(cyclic, 2_000), 1)), Bit(Hit(items, v, Later(cyclic, 20_000), 1)),
      Bit(Hit(items, v, Later(cyclic, 100_000), 1)), Latest(items, v, cyclic))
  {
    CountOfTwo(items, v, Sends(cyclic));
    CountOfTwo(items, v, Resends(cyclic));
    CountOfTwo(items, v, Returns(cyclic));
    CountOfTwo(items, v, Lost(cyclic));
    CountOfTwo(items, v, Later(cyclic, 2_000));
    CountOfTwo(items, v, Later(cyclic, 20_000));
    CountOfTwo(items, v, Later(cyclic, 100_000));
  }

  lemma ExtendsTo(items: seq<Item>, v: seq<Verdict>, item: Item, w: Verdict, its: seq<Item>, vs: seq<Verdict>)
    requires IsMatching(items, v) && Right(items, v, item, w) && its == items + [item] && vs == v + [w]
    ensures IsMatching(its, vs)
  {
    MatchingExtends(items, v, item, w);
  }

  lemma FirstIsSent(a: Item)
    requires a.Outgoing?
    ensures IsMatching([a], [Sent])
  {
    assert forall j: nat :: !LatestOpen([], [], j, a.key);
    assert Right([], [], a, Sent);
    ExtendsTo([], [], a, Sent, [a], [Sent]);
  }

  lemma MatchingOfTwo(a: Item, b: Item, w: Verdict)
    requires a.Outgoing? && Right([a], [Sent], b, w)
    ensures Verdicts([a, b]) == [Sent, w]
  {
    FirstIsSent(a);
    ExtendsTo([a], [Sent], b, w, [a, b], [Sent, w]);
    VerdictsAreTheMatching([a, b], [Sent, w]);
  }

  /** The verdict on the record behind a single send. */
  lemma SecondVerdict(a: Item, b: Item)
    requires a.Outgoing? && !b.Foreign?
    ensures Verdicts([a, b]) == [Sent,
      if b.Outgoing? then (if a.key == b.key && b.time - a.time < 500_000_000 then Resent else Sent)
      else if a.key == b.key then Answer(0) else Unmatched]
  {
    var past, v := [a], [Sent];
    assert Open(past, v, 0, b.key) <==> a.key == b.key;
    assert LatestOpen(past, v, 0, b.key) <==> a.key == b.key;
    var w := if b.Outgoing? then (if a.key == b.key && b.time - a.time < 500_000_000 then Resent else Sent)
             else if a.key == b.key then Answer(0) else Unmatched;
    MatchingOfTwo(a, b, w);
  }

  // ------------------------------------------------------------------- a send and what follows it

  /** The summary of two records that are both EtherCAT commands, by the kinds of the two. */
  function Summed(t: int, u: int, unmatched: nat, cyclic: bool, one: KindSummary): Summary {
    Summary(2, 0, unmatched, t, u, if cyclic then NOTHING else one, if cyclic then one else NOTHING)
  }

  /** One send and its return after `ns`: the bands are those of whole microseconds. */
  function Answered(ns: int): KindSummary {
    KindSummary(1, 0, 1, 0, Bit(ns >= 2_001_000), Bit(ns >= 20_001_000), Bit(ns >= 100_001_000),
                if ns >= 1000 then ns / 1000 else 0)
  }

  function SummaryOf(rs: seq<Record>): Summary { Reference(ItemsOf(rs), Verdicts(ItemsOf(rs))) }

  lemma ItemsOfTwo(r: Record, q: Record)
    ensures ItemsOf([r, q]) == [ItemOf(r), ItemOf(q)]
  {
  }

  lemma MicrosecondsOver(ns: int, limit: int)
    requires limit >= 0
    ensures Microseconds(ns) > limit <==> ns >= 1000 * limit + 1000
  {
  }

  lemma KindOfAnswer(items: seq<Item>, v: seq<Verdict>, cyclic: bool)
    requires |items| == 2 && items[0].Outgoing? && items[1].Incoming? && items[0].key == items[1].key
    requires v == [Sent, Answer(0)]
    ensures KindTally(items, v, cyclic) ==
      if IsCyclic(items[0].key) == cyclic then Answered(items[1].time - items[0].time) else NOTHING
  {
    KindOfTwo(items, v, cyclic);
    LatestOfTwo(items, v, cyclic);
    var ns := items[1].time - items[0].time;
    MicrosecondsOver(ns, 0);
    MicrosecondsOver(ns, 2_000);
    MicrosecondsOver(ns, 20_000);
    MicrosecondsOver(ns, 100_000);
  }

  lemma TotalsOfTwo(items: seq<Item>, v: seq<Verdict>)
    requires |items| == |v| == 2 && AnswersBack(v) && v[0].Sent? && !v[1].NotEtherCat?
    ensures Reference(items, v) == Summary(2, 0, Bit(v[1].Unmatched?), items[0].time, items[1].time,
                                           KindTally(items, v, false), KindTally(items, v, true))
  {
    CountOfTwo(items, v, Foreigns);
    CountOfTwo(items, v, Orphans);
  }

  /** A send and its return: one sent, one returned, none lost, and how late it was. */
  lemma SendAndReturn(c: Composition, d: Composition, t: int, u: int)
    requires Composes(c) && Composes(d) && !CameBack(c) && CameBack(d) && SameDatagram(First(c), First(d))
    ensures SummaryOf([RecordOf(c, t), RecordOf(d, u)]) == Summed(t, u, 0, Logical(First(c)), Answered(u - t))
  {
    var a, b := ItemOf(RecordOf(c, t)), ItemOf(RecordOf(d, u));
    KeysAgreeExactly(c, d, t, u);
    KeysAgreeExactly(d, c, u, t);
    ItemsOfTwo(RecordOf(c, t), RecordOf(d, u));
    SecondVerdict(a, b);
    TotalsOfTwo([a, b], [Sent, Answer(0)]);
    KindOfAnswer([a, b], [Sent, Answer(0)], false);
    KindOfAnswer([a, b], [Sent, Answer(0)], true);
  }

  /** A send and the return of something else: one sent, one lost and one return without a send. */
  lemma SendAndStranger(c: Composition, d: Composition, t: int, u: int)
    requires Composes(c) && Composes(d) && !CameBack(c) && CameBack(d) && !SameDatagram(First(c), First(d))
    ensures SummaryOf([RecordOf(c, t), RecordOf(d, u)])
         == Summed(t, u, 1, Logical(First(c)), KindSummary(1, 0, 0, 1, 0, 0, 0, 0))
  {
    var a, b := ItemOf(RecordOf(c, t)), ItemOf(RecordOf(d, u));
    KeysAgreeExactly(c, d, t, u);
    KeysAgreeExactly(d, c, u, t);
    ItemsOfTwo(RecordOf(c, t), RecordOf(d, u));
    SecondVerdict(a, b);
    TotalsOfTwo([a, b], [Sent, Unmatched]);
    KindOfOthers([a, b], [Sent, Unmatched], false);
    KindOfOthers([a, b], [Sent, Unmatched], true);
  }

  lemma KindOfOthers(items: seq<Item>, v: seq<Verdict>, cyclic: bool)
    requires |items| == |v| == 2 && items[0].Outgoing? && !items[1].Foreign? && v[0] == Sent
    requires v[1] == Sent || v[1] == Resent || v[1] == Unmatched
    ensures var first, second := IsCyclic(items[0].key) == cyclic, IsCyclic(items[1].key) == cyclic;
      KindTally(items, v, cyclic) == KindSummary(
        Bit(first) + Bit(second && v[1].Sent?), Bit(second && v[1].Resent?), 0,
        Bit(first) + Bit(second && v[1].Sent?), 0, 0, 0, 0)
  {
    KindOfTwo(items, v, cyclic);
    LatestOfTwo(items, v, cyclic);
    assert Answer(0) !in v && Answer(1) !in v;
  }

  /** A datagram sent twice: within half a second of the first it is the same one again, and from then on
      a new one. */
  lemma SendAndResend(c: Composition, d: Composition, t: int, u: int)
    requires Composes(c) && Composes(d) && !CameBack(c) && !CameBack(d) && SameDatagram(First(c), First(d))
    ensures SummaryOf([RecordOf(c, t), RecordOf(d, u)]) == Summed(t, u, 0, Logical(First(c)),
      if u - t < 500_000_000 then KindSummary(1, 1, 0, 1, 0, 0, 0, 0) else KindSummary(2, 0, 0, 2, 0, 0, 0, 0))
  {
    var a, b := ItemOf(RecordOf(c, t)), ItemOf(RecordOf(d, u));
    KeysAgreeExactly(c, d, t, u);
    KeysAgreeExactly(d, c, u, t);
    ItemsOfTwo(RecordOf(c, t), RecordOf(d, u));
    SecondVerdict(a, b);
    var v := [Sent, if u - t < 500_000_000 then Resent else Sent];
    TotalsOfTwo([a, b], v);
    KindOfOthers([a, b], v, false);
    KindOfOthers([a, b], v, true);
  }
}
