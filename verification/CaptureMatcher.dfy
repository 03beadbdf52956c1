/** Matching the frames of a capture to their returns: the declarative rule, and the queues by key that
    follow it one record at a time. */
module CaptureMatcher {
  import opened Bytes

  /** The header of a frame's first datagram, as returns are matched. */
  datatype Key = Key(index: byte, command: byte, adp: u16, ado: u16, length: nat)

  /** One record: not an EtherCAT command frame, a frame the master sent, or one on its way back. */
  datatype Item = Foreign(time: int) | Outgoing(time: int, key: Key) | Incoming(time: int, key: Key)

  /** What becomes of a record. An answer names the send it answers. */
  datatype Verdict = NotEtherCat | Sent | Resent | Answer(send: nat) | Unmatched

  /** kResendWindowNs. */
  const RESEND_WINDOW_NS: int := 500_000_000

  // ---------------------------------------------------------------------- the rule, declaratively

  /** Send j with key k is unanswered by these records. */
  predicate Open(past: seq<Item>, v: seq<Verdict>, j: nat, k: Key)
    requires |v| == |past|
  {
    j < |past| && v[j].Sent? && past[j].Outgoing? && past[j].key == k && Answer(j) !in v
  }

  predicate LatestOpen(past: seq<Item>, v: seq<Verdict>, j: nat, k: Key)
    requires |v| == |past|
  {
    Open(past, v, j, k) && forall i :: j < i < |past| ==> !Open(past, v, i, k)
  }

  predicate EarliestOpen(past: seq<Item>, v: seq<Verdict>, j: nat, k: Key)
    requires |v| == |past|
  {
    Open(past, v, j, k) && forall i :: 0 <= i < j ==> !Open(past, v, i, k)
  }

  /** A send within the window of the newest unanswered one with its key is that one sent again. */
  ghost predicate IsResend(past: seq<Item>, v: seq<Verdict>, time: int, k: Key)
    requires |v| == |past|
  {
    exists j: nat :: LatestOpen(past, v, j, k) && time - past[j].time < RESEND_WINDOW_NS
  }

  /** The verdict w on the next record, given the records and verdicts before it. A return answers the
      earliest unanswered send with its key. */
  ghost predicate Right(past: seq<Item>, v: seq<Verdict>, item: Item, w: Verdict)
    requires |v| == |past|
  {
    match item
    case Foreign(_) => w == NotEtherCat
    case Outgoing(time, k) => w == if IsResend(past, v, time, k) then Resent else Sent
    case Incoming(_, k) =>
      if w.Answer? then EarliestOpen(past, v, w.send, k)
      else w == Unmatched && forall j: nat :: !Open(past, v, j, k)
  }

  ghost predicate IsMatching(items: seq<Item>, v: seq<Verdict>) {
    |v| == |items| && forall n :: 0 <= n < |v| ==> Right(items[..n], v[..n], items[n], v[n])
  }

  lemma RightIsUnique(past: seq<Item>, v: seq<Verdict>, item: Item, w: Verdict, x: Verdict)
    requires |v| == |past| && Right(past, v, item, w) && Right(past, v, item, x)
    ensures w == x
  {
    if item.Incoming? {
      assert w.Answer? ==> Open(past, v, w.send, item.key);
      assert x.Answer? ==> Open(past, v, x.send, item.key);
    }
  }

  lemma {:induction false} MatchingsAgree(items: seq<Item>, v: seq<Verdict>, w: seq<Verdict>, n: nat)
    requires IsMatching(items, v) && IsMatching(items, w) && n <= |items|
    ensures v[..n] == w[..n]
  {
    if n == 0 {
    } else {
      var m := n - 1;
      MatchingsAgree(items, v, w, m);
      RightIsUnique(items[..m], v[..m], items[m], v[m], w[m]);
      assert v[..n] == v[..m] + [v[m]] && w[..n] == w[..m] + [w[m]];
    }
  }

  lemma MatchingExtends(items: seq<Item>, v: seq<Verdict>, item: Item, w: Verdict)
    requires IsMatching(items, v) && Right(items, v, item, w)
    ensures IsMatching(items + [item], v + [w])
  {
    var its, vs := items + [item], v + [w];
    forall n | 0 <= n < |vs| ensures Right(its[..n], vs[..n], its[n], vs[n]) {
      assert its[..n] == items[..n] && vs[..n] == v[..n];
      if n == |v| {
        assert items[..n] == items && v[..n] == v;
      }
    }
  }

  // ------------------------------------------------------------------------- the queues by key

  /** The verdicts so far, and for each key the unanswered sends, oldest first. */
  datatype Tracker = Tracker(verdicts: seq<Verdict>, open: map<Key, seq<nat>>)

  function QueueOf<T>(m: map<Key, seq<T>>, k: Key): seq<T> { if k in m then m[k] else [] }

  /** The verdict on the next record: the last of its queue decides about a send, and a return answers
      the first. */
  function Decide(items: seq<Item>, t: Tracker, item: Item): (w: Verdict)
    ensures w.Sent? ==> item.Outgoing?
    ensures w.Answer? ==> item.Incoming? && QueueOf(t.open, item.key) != []
  {
    match item
    case Foreign(_) => NotEtherCat
    case Outgoing(time, k) =>
      var q := QueueOf(t.open, k);
      if q != [] && q[|q| - 1] < |items| && time - items[q[|q| - 1]].time < RESEND_WINDOW_NS
      then Resent else Sent
    case Incoming(_, k) =>
      var q := QueueOf(t.open, k);
      if q == [] then Unmatched else Answer(q[0])
  }

  function Update(t: Tracker, item: Item, w: Verdict): Tracker
    requires w.Sent? ==> item.Outgoing?
    requires w.Answer? ==> item.Incoming? && QueueOf(t.open, item.key) != []
  {
    var n := |t.verdicts|;
    Tracker(t.verdicts + [w],
      match w
      case Sent => t.open[item.key := QueueOf(t.open, item.key) + [n]]
      case Answer(_) => t.open[item.key := QueueOf(t.open, item.key)[1..]]
      case _ => t.open)
  }

  /** All records of a capture, one after the other. */
  function Track(items: seq<Item>): (t: Tracker)
    ensures |t.verdicts| == |items|
  {
    if items == [] then Tracker([], map[]) else
      var before, item := items[..|items| - 1], items[|items| - 1];
      var t := Track(before);
      Update(t, item, Decide(before, t, item))
  }

  /** Each queue is exactly the open sends with its key, in order. */
  predicate QueueGood(items: seq<Item>, v: seq<Verdict>, q: seq<nat>, k: Key)
    requires |v| == |items|
  {
    && (forall i :: 0 <= i < |q| ==> Open(items, v, q[i], k))
    && (forall j :: 0 <= j < |items| && Open(items, v, j, k) ==> j in q)
    && (forall a, b :: 0 <= a < b < |q| ==> q[a] < q[b])
  }

  predicate AnswersBack(v: seq<Verdict>) {
    forall i :: 0 <= i < |v| && v[i].Answer? ==> v[i].send < i
  }

  ghost predicate TrackerGood(items: seq<Item>, t: Tracker) {
    && |t.verdicts| == |items|
    && (forall k :: QueueGood(items, t.verdicts, QueueOf(t.open, k), k))
    && AnswersBack(t.verdicts)
  }

  /** The last of a good queue is the newest open send, the first one the earliest. */
  lemma QueueEnds(items: seq<Item>, v: seq<Verdict>, q: seq<nat>, k: Key)
    requires |v| == |items| && QueueGood(items, v, q, k)
    ensures q == [] ==> forall j: nat :: !Open(items, v, j, k)
    ensures q != [] ==> LatestOpen(items, v, q[|q| - 1], k) && EarliestOpen(items, v, q[0], k)
  {
    if q != [] {
      assert forall i :: q[|q| - 1] < i < |items| ==> i !in q;
      assert forall i :: 0 <= i < q[0] ==> i !in q;
    }
  }

  lemma DecideIsRight(items: seq<Item>, t: Tracker, item: Item)
    requires TrackerGood(items, t)
    ensures Right(items, t.verdicts, item, Decide(items, t, item))
  {
    if !item.Foreign? {
      var k, v := item.key, t.verdicts;
      var q := QueueOf(t.open, k);
      assert QueueGood(items, v, q, k);
      QueueEnds(items, v, q, k);
      if item.Outgoing? && IsResend(items, v, item.time, k) {
        var j: nat :| LatestOpen(items, v, j, k) && item.time - items[j].time < RESEND_WINDOW_NS;
        assert Open(items, v, j, k) && q != [];
        assert j == q[|q| - 1];
      }
    }
  }

  /** What is open after one more record. */
  lemma OpenExtends(items: seq<Item>, v: seq<Verdict>, item: Item, w: Verdict, j: nat, k: Key)
    requires |v| == |items| && AnswersBack(v)
    requires w.Answer? ==> w.send < |v|
    ensures Open(items + [item], v + [w], j, k) <==>
      if j < |v| then Open(items, v, j, k) && w != Answer(j)
      else j == |v| && w.Sent? && item.Outgoing? && item.key == k
  {
    if j == |v| {
      assert Answer(j) !in v;
    }
  }

  /** A new send joins the queue of its key. */
  lemma QueueGrows(items: seq<Item>, v: seq<Verdict>, q: seq<nat>, item: Item)
    requires AnswersBack(v) && |v| == |items| && item.Outgoing? && QueueGood(items, v, q, item.key)
    ensures QueueGood(items + [item], v + [Sent], q + [|v|], item.key)
  {
    var r := q + [|v|];
    forall j: nat
      ensures Open(items + [item], v + [Sent], j, item.key) <==> Open(items, v, j, item.key) || j == |v|
    {
      OpenExtends(items, v, item, Sent, j, item.key);
    }
    assert forall j :: j in q ==> j in r;
  }

  /** An answer takes the first send off the queue of its key. */
  lemma QueueShrinks(items: seq<Item>, v: seq<Verdict>, q: seq<nat>, item: Item)
    requires AnswersBack(v) && |v| == |items| && item.Incoming? && q != []
    requires QueueGood(items, v, q, item.key)
    ensures QueueGood(items + [item], v + [Answer(q[0])], q[1..], item.key)
  {
    forall j: nat
      ensures Open(items + [item], v + [Answer(q[0])], j, item.key) <==>
        Open(items, v, j, item.key) && j != q[0]
    {
      OpenExtends(items, v, item, Answer(q[0]), j, item.key);
    }
    assert q == [q[0]] + q[1..];
  }

  /** No other queue is touched. */
  lemma QueueStays(items: seq<Item>, v: seq<Verdict>, q: seq<nat>, k: Key, item: Item, w: Verdict)
    requires AnswersBack(v) && |v| == |items| && QueueGood(items, v, q, k)
    requires w.Sent? ==> item.Outgoing? && item.key != k
    requires w.Answer? ==> w.send < |v| && !Open(items, v, w.send, k)
    ensures QueueGood(items + [item], v + [w], q, k)
  {
    forall j: nat ensures Open(items + [item], v + [w], j, k) <==> Open(items, v, j, k) {
      OpenExtends(items, v, item, w, j, k);
    }
  }

  lemma UpdateKeepsQueue(items: seq<Item>, t: Tracker, item: Item, k: Key)
    requires TrackerGood(items, t)
    ensures var w := Decide(items, t, item);
      QueueGood(items + [item], t.verdicts + [w], QueueOf(Update(t, item, w).open, k), k)
  {
    var v, w, q := t.verdicts, Decide(items, t, item), QueueOf(t.open, k);
    assert QueueGood(items, v, q, k);
    if w.Sent? && item.key == k {
      QueueGrows(items, v, q, item);
    } else if w.Answer? && item.key == k {
      QueueShrinks(items, v, q, item);
    } else {
      if w.Answer? {
        assert QueueGood(items, v, QueueOf(t.open, item.key), item.key);
        assert Open(items, v, w.send, item.key);
      }
      QueueStays(items, v, q, k, item, w);
    }
  }

  lemma UpdateKeeps(items: seq<Item>, t: Tracker, item: Item)
    requires TrackerGood(items, t)
    ensures TrackerGood(items + [item], Update(t, item, Decide(items, t, item)))
  {
    var w := Decide(items, t, item);
    var u := Update(t, item, w);
    forall k ensures QueueGood(items + [item], u.verdicts, QueueOf(u.open, k), k) {
      UpdateKeepsQueue(items, t, item, k);
    }
    if item.Incoming? {
      assert QueueGood(items, t.verdicts, QueueOf(t.open, item.key), item.key);
    }
  }

  lemma {:induction false} TrackIsGood(items: seq<Item>)
    ensures TrackerGood(items, Track(items)) && IsMatching(items, Track(items).verdicts)
  {
    if items == [] {
    } else {
      var before, item := items[..|items| - 1], items[|items| - 1];
      var t := Track(before);
      assert items == before + [item];
      TrackIsGood(before);
      DecideIsRight(before, t, item);
      MatchingExtends(before, t.verdicts, item, Decide(before, t, item));
      UpdateKeeps(before, t, item);
    }
  }

  lemma TrackExtends(items: seq<Item>, item: Item)
    ensures Track(items + [item]) == Update(Track(items), item, Decide(items, Track(items), item))
  {
    assert (items + [item])[..|items|] == items;
  }

  lemma QueueIsGood(items: seq<Item>, k: Key)
    ensures QueueGood(items, Track(items).verdicts, QueueOf(Track(items).open, k), k)
  {
    TrackIsGood(items);
  }

  /** The verdicts on a capture. */
  function Verdicts(items: seq<Item>): (v: seq<Verdict>)
    ensures |v| == |items| && AnswersBack(v)
  {
    TrackIsGood(items);
    Track(items).verdicts
  }

  /** The queues compute the one matching the rule allows. */
  lemma VerdictsAreTheMatching(items: seq<Item>, v: seq<Verdict>)
    ensures IsMatching(items, v) <==> v == Verdicts(items)
  {
    TrackIsGood(items);
    if IsMatching(items, v) {
      MatchingsAgree(items, v, Verdicts(items), |items|);
      assert v == v[..|items|] && Verdicts(items) == Verdicts(items)[..|items|];
    }
  }
}
