/** The summary of a capture: the counters of summarise, and what each of them counts. */
module CaptureSummaries {
  import opened Bytes
  import opened EtherCatFrames
  import opened CaptureMatcher
  import Pcap

  type Record = Pcap.Record

  /** The counts for one kind of frame. */
  datatype KindSummary = KindSummary(sent: nat, resent: nat, returned: nat, lost: nat,
                                     over2Ms: nat, over20Ms: nat, over100Ms: nat, latestUs: int)

  datatype Summary = Summary(frames: nat, notEtherCat: nat, unmatchedReturns: nat,
                             firstNs: int, lastNs: int, control: KindSummary, cyclic: KindSummary)

  /** keyOf. The position is left out for a command the slaves count up. */
  function KeyOf(d: Datagram): Key {
    Key(d.index, d.command, if IsPositionCountedUp(d.command) then 0 else d.adp, d.ado, d.length)
  }

  function ItemOf(r: Record): Item {
    match FrameOf(r.bytes)
    case None => Foreign(r.timestampNs)
    case Some(f) =>
      var k := KeyOf(f.datagrams[0]);
      if f.fromMaster then Outgoing(r.timestampNs, k) else Incoming(r.timestampNs, k)
  }

  function ItemsOf(records: seq<Record>): (items: seq<Item>)
    ensures |items| == |records|
    ensures forall i :: 0 <= i < |records| ==> items[i] == ItemOf(records[i])
  {
    seq(|records|, i requires 0 <= i < |records| => ItemOf(records[i]))
  }

  /** A kind is fixed by the key's command: a logical one is the cyclic frame of the RT loop. */
  predicate IsCyclic(k: Key) { IsLogicalCommand(k.command) }

  /** The C++ division of a signed integer, towards zero. */
  function Microseconds(ns: int): int { if ns >= 0 then ns / 1000 else -((-ns) / 1000) }

  // ------------------------------------------------------------------------- what is counted

  datatype Counter =
    | Foreigns | Orphans
    | Sends(cyclic: bool) | Resends(cyclic: bool) | Returns(cyclic: bool)
    | Later(cyclic: bool, limitUs: int)
    | Lost(cyclic: bool)

  predicate KindIs(item: Item, cyclic: bool) { !item.Foreign? && IsCyclic(item.key) == cyclic }

  /** How late the answer at record i is. */
  function LateUs(items: seq<Item>, v: seq<Verdict>, i: nat): int
    requires |v| == |items| && AnswersBack(v) && i < |v| && v[i].Answer?
  {
    Microseconds(items[i].time - items[v[i].send].time)
  }

  /** Record i is one of those that the counter counts. */
  predicate Hit(items: seq<Item>, v: seq<Verdict>, c: Counter, i: nat)
    requires |v| == |items| && AnswersBack(v) && i < |v|
  {
    match c
    case Foreigns => v[i].NotEtherCat?
    case Orphans => v[i].Unmatched?
    case Sends(cyclic) => v[i].Sent? && KindIs(items[i], cyclic)
    case Resends(cyclic) => v[i].Resent? && KindIs(items[i], cyclic)
    case Returns(cyclic) => v[i].Answer? && KindIs(items[i], cyclic)
    case Later(cyclic, limitUs) =>
      v[i].Answer? && KindIs(items[i], cyclic) && LateUs(items, v, i) > limitUs
    case Lost(cyclic) => v[i].Sent? && KindIs(items[i], cyclic) && Answer(i) !in v
  }

  function Hits(items: seq<Item>, v: seq<Verdict>, c: Counter): set<nat>
    requires |v| == |items| && AnswersBack(v)
  {
    set i: nat | i < |v| && Hit(items, v, c, i)
  }

  function Count(items: seq<Item>, v: seq<Verdict>, c: Counter): nat
    requires |v| == |items| && AnswersBack(v)
  {
    |Hits(items, v, c)|
  }

  /** The latest answer of a kind, or 0. */
  function Latest(items: seq<Item>, v: seq<Verdict>, cyclic: bool): int
    requires |v| == |items| && AnswersBack(v)
  {
    if v == [] then 0 else
      var n := |v| - 1;
      var before := Latest(items[..n], v[..n], cyclic);
      if Hit(items, v, Returns(cyclic), n) && LateUs(items, v, n) > before then LateUs(items, v, n)
      else before
  }

  function KindTally(items: seq<Item>, v: seq<Verdict>, cyclic: bool): KindSummary
    requires |v| == |items| && AnswersBack(v)
  {
    KindSummary(Count(items, v, Sends(cyclic)), Count(items, v, Resends(cyclic)),
                Count(items, v, Returns(cyclic)), Count(items, v, Lost(cyclic)),
                Count(items, v, Later(cyclic, 2_000)), Count(items, v, Later(cyclic, 20_000)),
                Count(items, v, Later(cyclic, 100_000)), Latest(items, v, cyclic))
  }

  /** The summary a matching stands for: every field counts the records its comment names. */
  function Reference(items: seq<Item>, v: seq<Verdict>): Summary
    requires |v| == |items| && AnswersBack(v)
  {
    Summary(|items|, Count(items, v, Foreigns), Count(items, v, Orphans),
            if items == [] then 0 else items[0].time,
            if items == [] then 0 else items[|items| - 1].time,
            KindTally(items, v, false), KindTally(items, v, true))
  }

  // ------------------------------------------------------------------- one record more

  lemma HitStays(items: seq<Item>, v: seq<Verdict>, item: Item, w: Verdict, c: Counter, i: nat)
    requires |v| == |items| && AnswersBack(v) && (w.Answer? ==> w.send < |v|) && i < |v| && !c.Lost?
    ensures AnswersBack(v + [w])
    ensures Hit(items + [item], v + [w], c, i) == Hit(items, v, c, i)
  {
  }

  lemma SetGrows(a: set<nat>, b: set<nat>, n: nat, hit: bool)
    requires n !in a && forall i: nat :: i in b <==> i in a || (hit && i == n)
    ensures |b| == |a| + if hit then 1 else 0
  {
    assert b == if hit then a + {n} else a;
  }

  /** Every counter but the lost ones goes up exactly when the new record is of its kind. */
  lemma CountExtends(items: seq<Item>, v: seq<Verdict>, item: Item, w: Verdict, c: Counter)
    requires |v| == |items| && AnswersBack(v) && (w.Answer? ==> w.send < |v|) && !c.Lost?
    ensures AnswersBack(v + [w])
    ensures Count(items + [item], v + [w], c)
         == Count(items, v, c) + if Hit(items + [item], v + [w], c, |v|) then 1 else 0
  {
    var its, vs := items + [item], v + [w];
    assert AnswersBack(vs);
    var a, b := Hits(items, v, c), Hits(its, vs, c);
    forall i: nat ensures i in b <==> i in a || (Hit(its, vs, c, |v|) && i == |v|) {
      if i < |v| {
        HitStays(items, v, item, w, c, i);
      }
    }
    SetGrows(a, b, |v|, Hit(its, vs, c, |v|));
  }

  lemma SetShrinks(a: set<nat>, b: set<nat>, n: nat)
    requires n in a && forall i: nat :: i in b <==> i in a && i != n
    ensures |b| == |a| - 1
  {
    assert b == a - {n};
  }

  /** A lost send more with each send, one less with each answer. */
  lemma LostExtends(items: seq<Item>, v: seq<Verdict>, item: Item, w: Verdict, cyclic: bool)
    requires |v| == |items| && AnswersBack(v) && Right(items, v, item, w)
    ensures AnswersBack(v + [w])
    ensures Count(items + [item], v + [w], Lost(cyclic))
         == Count(items, v, Lost(cyclic))
            + (if w.Sent? && KindIs(item, cyclic) then 1 else 0)
            - (if w.Answer? && KindIs(item, cyclic) then 1 else 0)
  {
    var vs, c := v + [w], Lost(cyclic);
    assert w.Answer? ==> Open(items, v, w.send, item.key);
    assert AnswersBack(vs);
    assert Answer(|v|) !in vs;
    var a, b := Hits(items, v, c), Hits(items + [item], vs, c);
    var grows := w.Sent? && KindIs(item, cyclic);
    if w.Answer? && KindIs(item, cyclic) {
      assert forall i: nat :: i in b <==> i in a && i != w.send;
      SetShrinks(a, b, w.send);
    } else {
      assert forall i: nat :: i in b <==> i in a || (grows && i == |v|);
      SetGrows(a, b, |v|, grows);
    }
  }

  // ----------------------------------------------------------------------- the counting itself

  /** record: one return, `lateNs` after its send. */
  function RecordReturn(k: KindSummary, lateNs: int): KindSummary {
    var lateUs := Microseconds(lateNs);
    k.(returned := k.returned + 1,
       latestUs := if lateUs > k.latestUs then lateUs else k.latestUs,
       over2Ms := k.over2Ms + if lateUs > 2_000 then 1 else 0,
       over20Ms := k.over20Ms + if lateUs > 20_000 then 1 else 0,
       over100Ms := k.over100Ms + if lateUs > 100_000 then 1 else 0)
  }

  /** What one record does to the counters of its kind. */
  function Counted(k: KindSummary, w: Verdict, lateNs: int): KindSummary {
    match w
    case Sent => k.(sent := k.sent + 1)
    case Resent => k.(resent := k.resent + 1)
    case Answer(_) => RecordReturn(k, lateNs)
    case _ => k
  }

  /** The counters while the records are read. The lost sends are counted at the end. */
  function Running(items: seq<Item>, v: seq<Verdict>, cyclic: bool): KindSummary
    requires |v| == |items| && AnswersBack(v)
  {
    KindTally(items, v, cyclic).(lost := 0)
  }

  lemma LatestExtends(items: seq<Item>, v: seq<Verdict>, item: Item, w: Verdict, cyclic: bool)
    requires |v| == |items| && AnswersBack(v) && (w.Answer? ==> w.send < |v|)
    ensures AnswersBack(v + [w])
    ensures Latest(items + [item], v + [w], cyclic) ==
      var before := Latest(items, v, cyclic);
      if w.Answer? && KindIs(item, cyclic)
         && Microseconds(item.time - items[w.send].time) > before
      then Microseconds(item.time - items[w.send].time) else before
  {
    var its, vs := items + [item], v + [w];
    assert AnswersBack(vs);
    assert its[..|v|] == items && vs[..|v|] == v;
  }

  lemma LaterExtends(items: seq<Item>, v: seq<Verdict>, item: Item, w: Verdict, cyclic: bool, limitUs: int)
    requires |v| == |items| && AnswersBack(v) && (w.Answer? ==> w.send < |v|)
    ensures AnswersBack(v + [w])
    ensures Count(items + [item], v + [w], Later(cyclic, limitUs)) ==
      Count(items, v, Later(cyclic, limitUs))
      + if w.Answer? && KindIs(item, cyclic)
           && Microseconds(item.time - items[w.send].time) > limitUs then 1 else 0
  {
    CountExtends(items, v, item, w, Later(cyclic, limitUs));
  }

  lemma RunningExtends(items: seq<Item>, v: seq<Verdict>, item: Item, w: Verdict, cyclic: bool)
    requires |v| == |items| && AnswersBack(v) && (w.Answer? ==> w.send < |v|)
    ensures AnswersBack(v + [w])
    ensures Running(items + [item], v + [w], cyclic) ==
      if !KindIs(item, cyclic) then Running(items, v, cyclic)
      else Counted(Running(items, v, cyclic), w, if w.Answer? then item.time - items[w.send].time else 0)
  {
    CountExtends(items, v, item, w, Sends(cyclic));
    CountExtends(items, v, item, w, Resends(cyclic));
    CountExtends(items, v, item, w, Returns(cyclic));
    LaterExtends(items, v, item, w, cyclic, 2_000);
    LaterExtends(items, v, item, w, cyclic, 20_000);
    LaterExtends(items, v, item, w, cyclic, 100_000);
    LatestExtends(items, v, item, w, cyclic);
  }

  function OpenSends(items: seq<Item>, v: seq<Verdict>, k: Key): set<nat>
    requires |v| == |items|
  {
    set i: nat | i < |v| && Open(items, v, i, k)
  }

  lemma {:induction false} QueueLength(q: seq<nat>, n: nat)
    requires n <= |q| && forall a, b :: 0 <= a < b < |q| ==> q[a] < q[b]
    ensures |set a: nat | a < n :: q[a]| == n
  {
    if n == 0 {
    } else {
      QueueLength(q, n - 1);
      var before := set a: nat | a < n - 1 :: q[a];
      assert q[n - 1] !in before;
      assert (set a: nat | a < n :: q[a]) == before + {q[n - 1]};
    }
  }

  /** The open sends with a key are as many as its queue is long. */
  lemma OpenSendsAreTheQueue(items: seq<Item>, v: seq<Verdict>, q: seq<nat>, k: Key)
    requires |v| == |items| && QueueGood(items, v, q, k)
    ensures |OpenSends(items, v, k)| == |q|
  {
    var sends := set a: nat | a < |q| :: q[a];
    QueueLength(q, |q|);
    forall i: nat ensures i in OpenSends(items, v, k) <==> i in sends {
      assert i in q <==> i in sends;
    }
    assert OpenSends(items, v, k) == sends;
  }

  /** The lost sends whose key is among these. */
  ghost function LostWith(items: seq<Item>, v: seq<Verdict>, cyclic: bool, keys: set<Key>): set<nat>
    requires |v| == |items|
  {
    set i: nat | i < |v| && items[i].Outgoing? && items[i].key in keys
                 && IsCyclic(items[i].key) == cyclic && Open(items, v, i, items[i].key)
  }

  /** One key more: the sends still in its queue. */
  lemma LostWithOneMore(items: seq<Item>, v: seq<Verdict>, q: seq<nat>, cyclic: bool,
                        keys: set<Key>, k: Key)
    requires |v| == |items| && k !in keys && QueueGood(items, v, q, k)
    ensures |LostWith(items, v, cyclic, keys + {k})|
         == |LostWith(items, v, cyclic, keys)| + if IsCyclic(k) == cyclic then |q| else 0
  {
    OpenSendsAreTheQueue(items, v, q, k);
    var a, b, c := LostWith(items, v, cyclic, keys), LostWith(items, v, cyclic, keys + {k}),
                   OpenSends(items, v, k);
    if IsCyclic(k) == cyclic {
      assert b == a + c;
      assert a !! c;
    } else {
      assert a == b;
    }
  }

  /** Every lost send has its key among those of the queues. */
  lemma LostWithAll(items: seq<Item>, t: Tracker, cyclic: bool, keys: set<Key>)
    requires TrackerGood(items, t) && IsMatching(items, t.verdicts)
    requires forall k :: QueueOf(t.open, k) != [] ==> k in keys
    ensures |LostWith(items, t.verdicts, cyclic, keys)| == Count(items, t.verdicts, Lost(cyclic))
  {
    var v := t.verdicts;
    forall i: nat | i < |v|
      ensures Hit(items, v, Lost(cyclic), i) <==> i in LostWith(items, v, cyclic, keys)
    {
      assert Right(items[..i], v[..i], items[i], v[i]);
      if Hit(items, v, Lost(cyclic), i) {
        var k := items[i].key;
        assert QueueGood(items, v, QueueOf(t.open, k), k);
        assert Open(items, v, i, k);
      }
    }
    assert LostWith(items, v, cyclic, keys) == Hits(items, v, Lost(cyclic));
  }

  // ----------------------------------------------------------------------------- summarise

  /** The summary while the records are read. */
  function RunningSummary(items: seq<Item>, v: seq<Verdict>): Summary
    requires |v| == |items| && AnswersBack(v)
  {
    Reference(items, v).(control := Running(items, v, false), cyclic := Running(items, v, true))
  }

  function Times(items: seq<Item>, q: seq<nat>): (r: seq<int>)
    ensures |r| == |q|
  {
    seq(|q|, i requires 0 <= i < |q| => if q[i] < |items| then items[q[i]].time else 0)
  }

  /** The queue of times for a key is that of the open sends. */
  predicate SameQueue(items: seq<Item>, t: Tracker, pending: map<Key, seq<int>>, k: Key) {
    QueueOf(pending, k) == Times(items, QueueOf(t.open, k))
  }

  /** The counters and the queues are those of the verdicts so far. */
  ghost predicate InStep(items: seq<Item>, t: Tracker, s: Summary, pending: map<Key, seq<int>>)
    requires |t.verdicts| == |items| && AnswersBack(t.verdicts)
  {
    s == RunningSummary(items, t.verdicts) && forall k :: SameQueue(items, t, pending, k)
  }

  /** The head of the loop: what every record does to the summary. */
  function Seen(s: Summary, time: int): Summary {
    s.(frames := s.frames + 1, firstNs := if s.frames == 0 then time else s.firstNs, lastNs := time)
  }

  function WithKind(s: Summary, cyclic: bool, k: KindSummary): Summary {
    if cyclic then s.(cyclic := k) else s.(control := k)
  }

  function KindOf(s: Summary, cyclic: bool): KindSummary { if cyclic then s.cyclic else s.control }

  /** What the verdict on a record does to the summary. */
  function Noted(s: Summary, item: Item, w: Verdict, lateNs: int): Summary {
    var r := Seen(s, item.time);
    match w
    case NotEtherCat => r.(notEtherCat := r.notEtherCat + 1)
    case Unmatched => r.(unmatchedReturns := r.unmatchedReturns + 1)
    case _ =>
      if item.Foreign? then r else
        WithKind(r, IsCyclic(item.key), Counted(KindOf(r, IsCyclic(item.key)), w, lateNs))
  }

  lemma NotedIsRunning(items: seq<Item>, v: seq<Verdict>, item: Item, w: Verdict)
    requires |v| == |items| && AnswersBack(v) && Right(items, v, item, w)
    ensures AnswersBack(v + [w]) && (w.Answer? ==> w.send < |items|)
    ensures RunningSummary(items + [item], v + [w]) ==
      Noted(RunningSummary(items, v), item, w, if w.Answer? then item.time - items[w.send].time else 0)
  {
    assert w.Answer? ==> Open(items, v, w.send, item.key);
    CountExtends(items, v, item, w, Foreigns);
    CountExtends(items, v, item, w, Orphans);
    RunningExtends(items, v, item, w, false);
    RunningExtends(items, v, item, w, true);
  }

  lemma TimesExtend(items: seq<Item>, item: Item, q: seq<nat>)
    requires forall i :: 0 <= i < |q| ==> q[i] < |items|
    ensures Times(items + [item], q) == Times(items, q)
    ensures Times(items + [item], q + [|items|]) == Times(items, q) + [item.time]
    ensures q != [] ==> Times(items + [item], q[1..]) == Times(items, q)[1..]
  {
  }

  /** What the queues of times say about a record. The send an answer is for is not named. */
  function Sight(pending: map<Key, seq<int>>, item: Item): Verdict {
    match item
    case Foreign(_) => NotEtherCat
    case Outgoing(time, k) =>
      var q := QueueOf(pending, k);
      if q != [] && time - q[|q| - 1] < RESEND_WINDOW_NS then Resent else Sent
    case Incoming(_, k) => if QueueOf(pending, k) == [] then Unmatched else Answer(0)
  }

  function SightLate(pending: map<Key, seq<int>>, item: Item): int {
    if Sight(pending, item).Answer? then item.time - QueueOf(pending, item.key)[0] else 0
  }

  function PendingNext(pending: map<Key, seq<int>>, item: Item): map<Key, seq<int>> {
    match Sight(pending, item)
    case Sent => pending[item.key := QueueOf(pending, item.key) + [item.time]]
    case Answer(_) => pending[item.key := QueueOf(pending, item.key)[1..]]
    case _ => pending
  }

  lemma SightIsDecision(items: seq<Item>, t: Tracker, pending: map<Key, seq<int>>, item: Item)
    requires TrackerGood(items, t) && forall k :: SameQueue(items, t, pending, k)
    ensures var w, x := Decide(items, t, item), Sight(pending, item);
      && (w == x || (w.Answer? && x.Answer?))
      && (w.Answer? ==> w.send < |items| && SightLate(pending, item) == item.time - items[w.send].time)
  {
    if !item.Foreign? {
      assert SameQueue(items, t, pending, item.key);
      assert QueueGood(items, t.verdicts, QueueOf(t.open, item.key), item.key);
    }
  }

  lemma PendingKeeps(items: seq<Item>, t: Tracker, pending: map<Key, seq<int>>, item: Item, k: Key)
    requires TrackerGood(items, t) && forall k :: SameQueue(items, t, pending, k)
    ensures var u := Update(t, item, Decide(items, t, item));
      SameQueue(items + [item], u, PendingNext(pending, item), k)
  {
    SightIsDecision(items, t, pending, item);
    assert SameQueue(items, t, pending, k);
    var q := QueueOf(t.open, k);
    assert QueueGood(items, t.verdicts, q, k);
    TimesExtend(items, item, q);
  }

  lemma StaysInStepWith(items: seq<Item>, t: Tracker, s: Summary, pending: map<Key, seq<int>>, item: Item)
    requires TrackerGood(items, t) && InStep(items, t, s, pending)
    ensures var u := Update(t, item, Decide(items, t, item));
      && TrackerGood(items + [item], u)
      && InStep(items + [item], u, Noted(s, item, Sight(pending, item), SightLate(pending, item)),
                PendingNext(pending, item))
  {
    UpdateKeeps(items, t, item);
    SightIsDecision(items, t, pending, item);
    DecideIsRight(items, t, item);
    NotedIsRunning(items, t.verdicts, item, Decide(items, t, item));
    forall k
      ensures SameQueue(items + [item], Update(t, item, Decide(items, t, item)),
                        PendingNext(pending, item), k)
    {
      PendingKeeps(items, t, pending, item, k);
    }
  }

  ghost predicate Tracks(items: seq<Item>, s: Summary, pending: map<Key, seq<int>>) {
    AnswersBack(Track(items).verdicts) && InStep(items, Track(items), s, pending)
  }

  /** One record more keeps the counters and the queues in step with the matching. */
  lemma StaysInStep(items: seq<Item>, s: Summary, pending: map<Key, seq<int>>, item: Item)
    requires Tracks(items, s, pending)
    ensures Tracks(items + [item], Noted(s, item, Sight(pending, item), SightLate(pending, item)),
                   PendingNext(pending, item))
  {
    TrackIsGood(items);
    StaysInStepWith(items, Track(items), s, pending, item);
    TrackExtends(items, item);
  }

  lemma LostByKey(items: seq<Item>, t: Tracker, pending: map<Key, seq<int>>, cyclic: bool,
                  keys: set<Key>, k: Key)
    requires TrackerGood(items, t) && k !in keys && SameQueue(items, t, pending, k)
    ensures |LostWith(items, t.verdicts, cyclic, keys + {k})|
         == |LostWith(items, t.verdicts, cyclic, keys)|
            + if IsCyclic(k) == cyclic then |QueueOf(pending, k)| else 0
  {
    assert QueueGood(items, t.verdicts, QueueOf(t.open, k), k);
    LostWithOneMore(items, t.verdicts, QueueOf(t.open, k), cyclic, keys, k);
  }

  /** The places in the queues of these keys, by kind. */
  function Places(pending: map<Key, seq<int>>, keys: set<Key>, cyclic: bool): set<(Key, nat)>
    requires keys <= pending.Keys
  {
    set k, i: nat | k in keys && IsCyclic(k) == cyclic && i < |pending[k]| :: (k, i)
  }

  lemma {:induction false} PlacesOfOne(k: Key, n: nat)
    ensures |set i: nat | i < n :: (k, i)| == n
  {
    if n == 0 {
    } else {
      PlacesOfOne(k, n - 1);
      var before := set i: nat | i < n - 1 :: (k, i);
      assert (k, n - 1) !in before;
      assert (set i: nat | i < n :: (k, i)) == before + {(k, n - 1)};
    }
  }

  lemma KeyApart(a: set<(Key, nat)>, c: set<(Key, nat)>, k: Key)
    requires (forall p :: p in a ==> p.0 != k) && (forall p :: p in c ==> p.0 == k)
    ensures |a + c| == |a| + |c|
  {
    assert a !! c;
  }

  lemma PlacesOfOneMore(pending: map<Key, seq<int>>, keys: set<Key>, cyclic: bool, k: Key)
    requires keys <= pending.Keys && k in pending && k !in keys
    ensures |Places(pending, keys + {k}, cyclic)|
         == |Places(pending, keys, cyclic)| + if IsCyclic(k) == cyclic then |pending[k]| else 0
  {
    var a, b := Places(pending, keys, cyclic), Places(pending, keys + {k}, cyclic);
    if IsCyclic(k) == cyclic {
      var c := set i: nat | i < |pending[k]| :: (k, i);
      PlacesOfOne(k, |pending[k]|);
      assert b == a + c;
      KeyApart(a, c, k);
    } else {
      assert a == b;
    }
  }

  /** The places in the queues are as many as the lost sends with those keys. */
  lemma {:induction false} PlacesAreLost(items: seq<Item>, t: Tracker, pending: map<Key, seq<int>>,
                                        keys: set<Key>, cyclic: bool)
    requires TrackerGood(items, t) && keys <= pending.Keys
    requires forall k :: SameQueue(items, t, pending, k)
    ensures |Places(pending, keys, cyclic)| == |LostWith(items, t.verdicts, cyclic, keys)|
    decreases keys
  {
    if keys == {} {
      assert Places(pending, keys, cyclic) == {};
      assert LostWith(items, t.verdicts, cyclic, keys) == {};
    } else {
      var k :| k in keys;
      var rest := keys - {k};
      PlacesAreLost(items, t, pending, rest, cyclic);
      assert keys == rest + {k};
      assert SameQueue(items, t, pending, k);
      PlacesOfOneMore(pending, rest, cyclic, k);
      LostByKey(items, t, pending, cyclic, rest, k);
    }
  }

  lemma AllPlacesAreLost(items: seq<Item>, s: Summary, pending: map<Key, seq<int>>, cyclic: bool)
    requires Tracks(items, s, pending)
    ensures |Places(pending, pending.Keys, cyclic)| == Count(items, Verdicts(items), Lost(cyclic))
  {
    TrackIsGood(items);
    var t := Track(items);
    forall k ensures QueueOf(t.open, k) != [] ==> k in pending {
      assert SameQueue(items, t, pending, k);
    }
    PlacesAreLost(items, t, pending, pending.Keys, cyclic);
    LostWithAll(items, t, cyclic, pending.Keys);
  }

  /** The last loop of summarise: the sends still in the queues, by kind. */
  method CountLost(pending: map<Key, seq<int>>) returns (control: nat, cyclic: nat)
    ensures control == |Places(pending, pending.Keys, false)|
    ensures cyclic == |Places(pending, pending.Keys, true)|
  {
    control, cyclic := 0, 0;
    var left := pending.Keys;
    ghost var done: set<Key> := {};
    while left != {}
      invariant done + left == pending.Keys && done !! left
      invariant control == |Places(pending, done, false)|
      invariant cyclic == |Places(pending, done, true)|
    {
      var k :| k in left;
      PlacesOfOneMore(pending, done, false, k);
      PlacesOfOneMore(pending, done, true, k);
      if IsCyclic(k) {
        cyclic := cyclic + |pending[k]|;
      } else {
        control := control + |pending[k]|;
      }
      left, done := left - {k}, done + {k};
    }
    assert done == pending.Keys;
  }

  /** What a record is: its first datagram decides. */
  method Classify(r: Record) returns (item: Item)
    ensures item == ItemOf(r)
  {
    var frame := ParseEtherCatFrame(r.bytes);
    if frame.None? {
      return Foreign(r.timestampNs);
    }
    var key := KeyOf(frame.value.datagrams[0]);
    if frame.value.fromMaster {
      item := Outgoing(r.timestampNs, key);
    } else {
      item := Incoming(r.timestampNs, key);
    }
  }

  /** The rest of the body of the loop of summarise. */
  method NoteItem(before: Summary, queues: map<Key, seq<int>>, item: Item)
    returns (s: Summary, pending: map<Key, seq<int>>)
    ensures s == Noted(before, item, Sight(queues, item), SightLate(queues, item))
    ensures pending == PendingNext(queues, item)
  {
    s, pending := Seen(before, item.time), queues;
    if item.Foreign? {
      s := s.(notEtherCat := s.notEtherCat + 1);
      return;
    }
    var cyclic := IsCyclic(item.key);
    var sends := QueueOf(pending, item.key);
    var kind := KindOf(s, cyclic);
    if item.Outgoing? {
      if sends != [] && item.time - sends[|sends| - 1] < RESEND_WINDOW_NS {
        s := WithKind(s, cyclic, kind.(resent := kind.resent + 1));
        return;
      }
      s := WithKind(s, cyclic, kind.(sent := kind.sent + 1));
      pending := pending[item.key := sends + [item.time]];
      return;
    }
    if sends == [] {
      s := s.(unmatchedReturns := s.unmatchedReturns + 1);
      return;
    }
    s := WithKind(s, cyclic, RecordReturn(kind, item.time - sends[0]));
    pending := pending[item.key := sends[1..]];
  }

  /** The end of summarise. */
  method AddLost(running: Summary, pending: map<Key, seq<int>>, ghost items: seq<Item>)
    returns (s: Summary)
    requires Tracks(items, running, pending)
    ensures s == Reference(items, Verdicts(items))
  {
    AllPlacesAreLost(items, running, pending, false);
    AllPlacesAreLost(items, running, pending, true);
    var control, cyclic := CountLost(pending);
    s := running.(control := running.control.(lost := control), cyclic := running.cyclic.(lost := cyclic));
  }

  lemma StartsInStep()
    ensures var none := KindSummary(0, 0, 0, 0, 0, 0, 0, 0);
      Tracks([], Summary(0, 0, 0, 0, 0, none, none), map[])
  {
    forall c ensures Hits([], [], c) == {} {
    }
  }

  /** The body of the loop of summarise. */
  method NoteRecord(before: Summary, queues: map<Key, seq<int>>, r: Record, ghost past: seq<Item>)
    returns (s: Summary, pending: map<Key, seq<int>>)
    requires Tracks(past, before, queues)
    ensures Tracks(past + [ItemOf(r)], s, pending)
  {
    var item := Classify(r);
    StaysInStep(past, before, queues, item);
    s, pending := NoteItem(before, queues, item);
  }

  lemma ItemsOfOneMore(records: seq<Record>, n: nat)
    requires n < |records|
    ensures ItemsOf(records[..n + 1]) == ItemsOf(records[..n]) + [ItemOf(records[n])]
  {
  }

  /** summarise: one pass over the records with a queue of send times for each key. The result is the
      reference summary of the matching that pairs each return with the earliest unanswered send. */
  method Summarise(records: seq<Record>) returns (s: Summary)
    ensures s == Reference(ItemsOf(records), Verdicts(ItemsOf(records)))
  {
    var none := KindSummary(0, 0, 0, 0, 0, 0, 0, 0);
    s := Summary(0, 0, 0, 0, 0, none, none);
    var pending: map<Key, seq<int>> := map[];
    StartsInStep();
    ghost var past: seq<Item> := [];
    var n := 0;
    while n < |records|
      invariant n <= |records| && past == ItemsOf(records[..n])
      invariant Tracks(past, s, pending)
    {
      s, pending := NoteRecord(s, pending, records[n], past);
      ItemsOfOneMore(records, n);
      past, n := past + [ItemOf(records[n])], n + 1;
    }
    assert records[..n] == records;
    s := AddLost(s, pending, past);
  }
}
