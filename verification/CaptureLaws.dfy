/** What holds of every summary: conservation, the order of answers, and the resend window. */
module CaptureLaws {
  import opened CaptureMatcher
  import opened CaptureSummaries

  // ---------------------------------------------------------------------------- conservation

  lemma BalanceExtends(items: seq<Item>, v: seq<Verdict>, item: Item, w: Verdict, cyclic: bool)
    requires |v| == |items| && AnswersBack(v) && Right(items, v, item, w)
    requires Count(items, v, Sends(cyclic))
          == Count(items, v, Returns(cyclic)) + Count(items, v, Lost(cyclic))
    ensures AnswersBack(v + [w])
    ensures var its, vs := items + [item], v + [w];
      Count(its, vs, Sends(cyclic)) == Count(its, vs, Returns(cyclic)) + Count(its, vs, Lost(cyclic))
  {
    assert w.Answer? ==> Open(items, v, w.send, item.key);
    LostExtends(items, v, item, w, cyclic);
    CountExtends(items, v, item, w, Sends(cyclic));
    CountExtends(items, v, item, w, Returns(cyclic));
  }

  lemma {:induction false} SentIsReturnedOrLost(items: seq<Item>, cyclic: bool)
    ensures var v := Verdicts(items);
      Count(items, v, Sends(cyclic)) == Count(items, v, Returns(cyclic)) + Count(items, v, Lost(cyclic))
  {
    if items == [] {
      forall c ensures Hits(items, Verdicts(items), c) == {} {
      }
    } else {
      var before, item := items[..|items| - 1], items[|items| - 1];
      assert items == before + [item];
      SentIsReturnedOrLost(before, cyclic);
      TrackExtends(before, item);
      TrackIsGood(before);
      DecideIsRight(before, Track(before), item);
      BalanceExtends(before, Verdicts(before), item, Decide(before, Track(before), item), cyclic);
    }
  }

  /** Each record is counted exactly once. */
  function CountedOnce(items: seq<Item>, v: seq<Verdict>): nat
    requires |v| == |items| && AnswersBack(v)
  {
    Count(items, v, Foreigns) + Count(items, v, Orphans)
    + Count(items, v, Sends(false)) + Count(items, v, Resends(false)) + Count(items, v, Returns(false))
    + Count(items, v, Sends(true)) + Count(items, v, Resends(true)) + Count(items, v, Returns(true))
  }

  lemma CountedOnceExtends(items: seq<Item>, v: seq<Verdict>, item: Item, w: Verdict)
    requires |v| == |items| && AnswersBack(v) && Right(items, v, item, w)
    ensures AnswersBack(v + [w])
    ensures CountedOnce(items + [item], v + [w]) == CountedOnce(items, v) + 1
  {
    assert w.Answer? ==> Open(items, v, w.send, item.key);
    CountExtends(items, v, item, w, Foreigns);
    CountExtends(items, v, item, w, Orphans);
    CountExtends(items, v, item, w, Sends(false));
    CountExtends(items, v, item, w, Resends(false));
    CountExtends(items, v, item, w, Returns(false));
    CountExtends(items, v, item, w, Sends(true));
    CountExtends(items, v, item, w, Resends(true));
    CountExtends(items, v, item, w, Returns(true));
  }

  lemma {:induction false} EveryRecordIsCountedOnce(items: seq<Item>)
    ensures CountedOnce(items, Verdicts(items)) == |items|
  {
    if items == [] {
      forall c ensures Hits(items, Verdicts(items), c) == {} {
      }
    } else {
      var before, item := items[..|items| - 1], items[|items| - 1];
      assert items == before + [item];
      EveryRecordIsCountedOnce(before);
      TrackExtends(before, item);
      TrackIsGood(before);
      DecideIsRight(before, Track(before), item);
      CountedOnceExtends(before, Verdicts(before), item, Decide(before, Track(before), item));
    }
  }

  lemma SubsetCount(a: set<nat>, b: set<nat>)
    requires a <= b
    ensures |a| <= |b|
  {
    assert b == a + (b - a);
  }

  lemma BandsAreCumulative(items: seq<Item>, v: seq<Verdict>, cyclic: bool, low: int, high: int)
    requires |v| == |items| && AnswersBack(v) && low <= high
    ensures Count(items, v, Later(cyclic, high)) <= Count(items, v, Later(cyclic, low))
         <= Count(items, v, Returns(cyclic))
  {
    SubsetCount(Hits(items, v, Later(cyclic, high)), Hits(items, v, Later(cyclic, low)));
    SubsetCount(Hits(items, v, Later(cyclic, low)), Hits(items, v, Returns(cyclic)));
  }

  /** The sums of every summary: sent is returned plus lost for each kind, every record is counted in
      exactly one place, and the bands are cumulative. */
  lemma Conservation(records: seq<Record>)
    ensures var items := ItemsOf(records);
      var s := Reference(items, Verdicts(items));
      && s.frames == |records|
      && s.control.sent == s.control.returned + s.control.lost
      && s.cyclic.sent == s.cyclic.returned + s.cyclic.lost
      && s.frames == s.notEtherCat + s.unmatchedReturns
                     + s.control.sent + s.control.resent + s.control.returned
                     + s.cyclic.sent + s.cyclic.resent + s.cyclic.returned
      && s.control.over100Ms <= s.control.over20Ms <= s.control.over2Ms <= s.control.returned
      && s.cyclic.over100Ms <= s.cyclic.over20Ms <= s.cyclic.over2Ms <= s.cyclic.returned
  {
    var items := ItemsOf(records);
    var v := Verdicts(items);
    SentIsReturnedOrLost(items, false);
    SentIsReturnedOrLost(items, true);
    EveryRecordIsCountedOnce(items);
    BandsAreCumulative(items, v, false, 20_000, 100_000);
    BandsAreCumulative(items, v, false, 2_000, 20_000);
    BandsAreCumulative(items, v, true, 20_000, 100_000);
    BandsAreCumulative(items, v, true, 2_000, 20_000);
  }

  // ------------------------------------------------------------------------- order of answers

  /** Returns with one key answer its sends in the order they were sent, each send at most once. */
  lemma AnswersKeepTheOrder(items: seq<Item>, v: seq<Verdict>, i: nat, j: nat)
    requires IsMatching(items, v) && i < j < |v| && v[i].Answer? && v[j].Answer?
    requires items[i].Incoming? && items[j].Incoming? && items[i].key == items[j].key
    ensures v[i].send < i && v[j].send < j && v[i].send < v[j].send
    ensures items[v[i].send].Outgoing? && items[v[i].send].key == items[i].key
  {
    assert Right(items[..i], v[..i], items[i], v[i]) && Right(items[..j], v[..j], items[j], v[j]);
    var a, b, k := v[i].send, v[j].send, items[i].key;
    assert Open(items[..i], v[..i], a, k) && Open(items[..j], v[..j], b, k);
    assert v[..j][i] == v[i];
    if b < a {
      assert Answer(b) !in v[..i] by {
        assert v[..i] == v[..j][..i];
      }
      assert Open(items[..i], v[..i], b, k);
    }
  }

  // --------------------------------------------------------------------------- resend window

  /** Neighbours in a queue are at least the window apart. */
  predicate Spaced(items: seq<Item>, q: seq<nat>) {
    && (forall a :: 0 <= a < |q| ==> q[a] < |items|)
    && (forall a :: 0 <= a < |q| - 1 ==> items[q[a + 1]].time - items[q[a]].time >= RESEND_WINDOW_NS)
  }

  lemma SpacedExtends(items: seq<Item>, item: Item, q: seq<nat>)
    requires Spaced(items, q)
    ensures Spaced(items + [item], q) && (q != [] ==> Spaced(items + [item], q[1..]))
    ensures (q == [] || item.time - items[q[|q| - 1]].time >= RESEND_WINDOW_NS)
            ==> Spaced(items + [item], q + [|items|])
  {
  }

  /** A record changes a queue by pushing itself, by taking the first send off, or not at all. */
  lemma QueueSteps(items: seq<Item>, item: Item, k: Key)
    ensures var q, r := QueueOf(Track(items).open, k), QueueOf(Track(items + [item]).open, k);
      && QueueGood(items, Verdicts(items), q, k)
      && (r == q || (q != [] && r == q[1..])
          || (r == q + [|items|]
              && (q == [] || item.time - items[q[|q| - 1]].time >= RESEND_WINDOW_NS)))
  {
    QueueIsGood(items, k);
    TrackExtends(items, item);
  }

  lemma {:induction false} QueuesAreSpaced(items: seq<Item>, k: Key)
    ensures Spaced(items, QueueOf(Track(items).open, k))
  {
    if items == [] {
    } else {
      var before, item := items[..|items| - 1], items[|items| - 1];
      assert items == before + [item];
      QueuesAreSpaced(before, k);
      QueueSteps(before, item, k);
      SpacedExtends(before, item, QueueOf(Track(before).open, k));
    }
  }

  lemma {:induction false} SpacedSpan(items: seq<Item>, q: seq<nat>, n: nat)
    requires Spaced(items, q) && n < |q|
    ensures items[q[n]].time - items[q[0]].time >= n * RESEND_WINDOW_NS
  {
    if n == 0 {
    } else {
      SpacedSpan(items, q, n - 1);
      assert items[q[n - 1 + 1]].time - items[q[n - 1]].time >= RESEND_WINDOW_NS;
    }
  }

  predicate TimeOrdered(items: seq<Item>) {
    forall i, j :: 0 <= i <= j < |items| ==> items[i].time <= items[j].time
  }

  /** In a capture in time order, at most one send per key and window stays unanswered: a capture of
      duration D has at most 1 + D / 500 ms open sends with one key. */
  lemma OpenSendsAreFew(items: seq<Item>, k: Key)
    requires TimeOrdered(items) && items != []
    ensures var d := items[|items| - 1].time - items[0].time;
      d >= 0 && |OpenSends(items, Verdicts(items), k)| <= 1 + d / RESEND_WINDOW_NS
  {
    var q := QueueOf(Track(items).open, k);
    QueueIsGood(items, k);
    OpenSendsAreTheQueue(items, Verdicts(items), q, k);
    QueuesAreSpaced(items, k);
    if q != [] {
      SpacedSpan(items, q, |q| - 1);
    }
  }

  /** Two open sends with one key are at least the window apart, in any capture. */
  lemma OpenSendsAreSpaced(items: seq<Item>, i: nat, j: nat, k: Key)
    requires i < j && Open(items, Verdicts(items), i, k) && Open(items, Verdicts(items), j, k)
    ensures items[j].time - items[i].time >= RESEND_WINDOW_NS
  {
    var q := QueueOf(Track(items).open, k);
    QueueIsGood(items, k);
    QueuesAreSpaced(items, k);
    var a :| 0 <= a < |q| && q[a] == i;
    var b :| 0 <= b < |q| && q[b] == j;
    assert a < b;
    SpacedBetween(items, q, a, b);
  }

  lemma {:induction false} SpacedBetween(items: seq<Item>, q: seq<nat>, a: nat, b: nat)
    requires Spaced(items, q) && a < b < |q|
    ensures items[q[b]].time - items[q[a]].time >= RESEND_WINDOW_NS
    decreases b - a
  {
    assert items[q[b - 1 + 1]].time - items[q[b - 1]].time >= RESEND_WINDOW_NS;
    if a < b - 1 {
      SpacedBetween(items, q, a, b - 1);
    }
  }

  // --------------------------------------------------------------------------------- latencies

  /** latestUs is the largest latency of its kind, and 0 when none is above that. */
  lemma {:induction false} LatestIsLargest(items: seq<Item>, v: seq<Verdict>, cyclic: bool)
    requires |v| == |items| && AnswersBack(v)
    ensures Latest(items, v, cyclic) >= 0
    ensures forall i: nat :: i < |v| && Hit(items, v, Returns(cyclic), i) ==>
      LateUs(items, v, i) <= Latest(items, v, cyclic)
    ensures Latest(items, v, cyclic) > 0 ==>
      exists i: nat :: i < |v| && Hit(items, v, Returns(cyclic), i)
                       && LateUs(items, v, i) == Latest(items, v, cyclic)
  {
    if v == [] {
    } else {
      var n := |v| - 1;
      var its, vs := items[..n], v[..n];
      LatestIsLargest(its, vs, cyclic);
      forall i: nat | i < n
        ensures Hit(items, v, Returns(cyclic), i) == Hit(its, vs, Returns(cyclic), i)
        ensures v[i].Answer? ==> LateUs(items, v, i) == LateUs(its, vs, i)
      {
      }
      if Latest(items, v, cyclic) > 0 {
        if Latest(items, v, cyclic) == Latest(its, vs, cyclic) {
          var i: nat :| i < n && Hit(its, vs, Returns(cyclic), i)
                        && LateUs(its, vs, i) == Latest(its, vs, cyclic);
          assert Hit(items, v, Returns(cyclic), i);
        } else {
          assert Hit(items, v, Returns(cyclic), n);
        }
      }
    }
  }

  /** In a capture in time order no answer comes before its send. */
  lemma LatenciesAreNonNegative(items: seq<Item>, i: nat)
    requires TimeOrdered(items) && i < |items| && Verdicts(items)[i].Answer?
    ensures LateUs(items, Verdicts(items), i) >= 0
  {
  }
}
