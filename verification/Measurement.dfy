// client_statistics (src/client.cpp) on the books that the sender keeps: does it stay in the table of
// times that was sized at start-up?
module Measurement {
  import opened Arith
  import opened Messages
  import opened Pacing
  import opened Packet
  import opened Sender
  import opened Statistics

  /** What client_statistics comes to: nothing was received, the window is empty, the table was left,
      which ends the program, or a report. */
  datatype Result = NoReplies | TooShort | Exceeded | Report(accepted: nat, sumRtt: int, dropped: nat, ooo: nat)

  /** The send times leave a slot unset exactly if the block after the last number used has its place
      in the table. */
  lemma UnsetSlotExactly(tx: seq<int>, seqNo: nat, replyEvery: nat, max: nat, now: int)
    requires replyEvery > 0 && seqNo <= max && |tx| == max / replyEvery + 1
    requires 0 <= seqNo / replyEvery && Timeline(tx, seqNo / replyEvery, now)
    ensures (exists k :: 1 <= k < |tx| && tx[k] == 0) <==> Ahead(seqNo, replyEvery) <= max
  {
    var used := seqNo / replyEvery;
    RoomAhead(used, replyEvery, max);
    if used + 1 < |tx| {
      assert tx[used + 1] == 0;
    }
  }

  /** Playback sizes the table by the number of its messages: when all are sent, there is none left. */
  lemma PlaybackFillsTable(max: nat, replyEvery: nat)
    requires replyEvery > 0
    ensures Ahead(max, replyEvery) > max
  {
    FloorIs(max, replyEvery, max / replyEvery);
  }

  lemma RoomAhead(used: int, replyEvery: nat, max: nat)
    requires replyEvery > 0
    ensures used + 1 < max / replyEvery + 1 <==> (used + 1) * replyEvery <= max
  {
    FloorIs(max, replyEvery, max / replyEvery);
    if used + 1 <= max / replyEvery {
      MulMono(used + 1, max / replyEvery, replyEvery);
    } else {
      MulMono(max / replyEvery + 1, used + 1, replyEvery);
    }
  }

  /** With a cool-down the loop ends at the last slot used, at the latest; without one it goes on to
      the first unset slot, and runs out of the table exactly if there is none. */
  lemma RunsOutExactly(cl: Classifier, v: View, seqNo: nat, replyEvery: nat, max: nat, now: int, cooldown: nat,
                       size: nat)
    requires replyEvery > 0 && seqNo <= max && |v.rx| == |v.tx| == max / replyEvery + 1 > 1 && v.first == 1
    requires 0 <= seqNo / replyEvery && Timeline(v.tx, seqNo / replyEvery, now)
    ensures var testEnd := v.tx[seqNo / replyEvery] - cooldown;
            && (cooldown > 0 || Ahead(seqNo, replyEvery) <= max ==> !cl.RunsOut(v, size, testEnd, -1))
            && (cooldown == 0 && 1 <= seqNo / replyEvery ==>
                  (cl.RunsOut(v, size, testEnd, -1) <==>
                     Ahead(seqNo, replyEvery) > max && |v.Accepted(|v.tx|)| < size))
  {
    hide View.Accepted, Ahead;
    var last := seqNo / replyEvery;
    var testEnd := v.tx[last] - cooldown;
    UnsetSlotExactly(v.tx, seqNo, replyEvery, max, now);
    if k :| 1 <= k < |v.tx| && v.tx[k] == 0 {
      assert cl.Ends(v, k, testEnd, -1);
    }
    if cooldown > 0 {
      assert cl.Ends(v, if last == 0 then 1 else last, testEnd, -1);
    } else if 1 <= last {
      forall i | 1 <= i < |v.tx|
        ensures cl.Ends(v, i, testEnd, -1) <==> v.tx[i] == 0
      {
        assert i <= last ==> v.tx[i] <= v.tx[last];
      }
    }
  }

  lemma FirstBeforeLast(tx: seq<int>, last: nat, now: int)
    requires Timeline(tx, last, now) && 1 <= last
    ensures 1 < |tx| && tx[1] <= tx[last]
  {
  }

  /** client_statistics of a run that is measured by time or played back; warmup and cooldown are 0 in
      the latter.  With a cool-down the table is never left; without one it is left exactly if the
      next block has no place in it and some reply was not accepted. */
  method ClientStatistics(c: Client, cl: Classifier, warmup: nat, cooldown: nat, denominator: nat)
    returns (r: Result, ghost v: View, ghost stop: nat)
    requires c.Valid() && !c.mode.Never? && 0 < denominator && cl.table == c.table && cl.Valid()
    modifies cl`dropped, cl`ooo
    ensures r.NoReplies? <==> c.table.receiveCount == 0
    ensures 0 < c.table.receiveCount && c.table.replyEvery > c.table.maxSequenceNo ==> r.Exceeded?
    ensures 0 < c.table.receiveCount && c.table.replyEvery <= c.table.maxSequenceNo ==>
              && 0 <= SeqNo(c.request) / c.table.replyEvery < |c.table.tx| && 1 < |c.table.tx|
              && v == cl.ViewOf(c.table.tx[1] + warmup, 1) && |v.tx| == |v.rx|
              && var testEnd := c.table.tx[SeqNo(c.request) / c.table.replyEvery] - cooldown;
                 if testEnd < c.table.tx[1] + warmup then r.TooShort?
                 else if cl.RunsOut(v, c.table.receiveCount, testEnd, -1) then r.Exceeded?
                 else r.Report?
    ensures cooldown > 0 && c.table.replyEvery <= c.table.maxSequenceNo ==> !r.Exceeded?
    ensures Ahead(SeqNo(c.request), c.table.replyEvery) <= c.table.maxSequenceNo ==> !r.Exceeded?
    ensures c.table.replyEvery <= SeqNo(c.request) ==>
              && 1 <= SeqNo(c.request) / c.table.replyEvery < |c.table.tx|
              && v == cl.ViewOf(c.table.tx[1] + warmup, 1) && |v.tx| == |v.rx|
              && (warmup == cooldown == 0 && 0 < c.table.receiveCount ==>
                    (r.Exceeded? <==>
                       && Ahead(SeqNo(c.request), c.table.replyEvery) > c.table.maxSequenceNo
                       && |v.Accepted(|v.tx|)| < c.table.receiveCount))
              && (r.Report? ==>
                    && cl.StopsAt(v, stop, c.table.receiveCount,
                                  c.table.tx[SeqNo(c.request) / c.table.replyEvery] - cooldown, -1)
                    && r.accepted == |v.Accepted(stop)| && r.sumRtt == v.SumRtt(stop)
                    && r.dropped == v.Dropped(stop) && r.ooo == v.OutOfOrder(stop)
                    && cl.dropped == old(cl.dropped) + r.dropped && cl.ooo == old(cl.ooo) + r.ooo)
  {
    hide FromLE, At, PacketTimes.Holds, View.Accepted, View.Dropped, View.OutOfOrder, View.SumRtt, View.Latencies,
         Timeline, Column, Ahead, NonZeroCells, Sum, Classifier.StopsAt, Classifier.RunsOut;
    c.MsgIs();
    c.InBooks();
    var seqNo := c.GetSequenceCounter();
    Slots(c);
    if c.table.replyEvery <= seqNo {
      FirstBeforeLast(c.table.tx, seqNo / c.table.replyEvery, c.now);
    }
    v := cl.ViewOf((if 1 < |c.table.tx| then c.table.tx[1] else 0) + warmup, 1);
    stop := 0;
    if c.table.receiveCount == 0 {
      return NoReplies, v, 0;
    }
    if c.table.replyEvery > c.table.maxSequenceNo {
      return Exceeded, v, 0;
    }
    var testStart := c.table.GetTxTime(c.table.replyEvery);
    var testEnd := c.table.GetTxTime(seqNo);
    testStart, testEnd := testStart + warmup, testEnd - cooldown;
    if testEnd < testStart {
      return TooShort, v, 0;
    }
    cl.ViewFacts(v, testStart, 1);
    RunsOutExactly(cl, v, seqNo, c.table.replyEvery, c.table.maxSequenceNo, c.now, cooldown, c.table.receiveCount);
    var dropped, ooo := cl.dropped, cl.ooo;
    var latencies, counter, sumRtt, exceeded, stop' :=
      cl.Classify(c.table.receiveCount, testStart, testEnd, 1, -1, denominator, v);
    stop := stop';
    r := if exceeded then Exceeded else Report(counter, sumRtt, cl.dropped - dropped, cl.ooo - ooo);
  }

  /** Where the first pong request and the last number are recorded. */
  lemma Slots(c: Client)
    requires c.Valid() && !c.mode.Never?
    ensures var re, max, n := c.table.replyEvery, c.table.maxSequenceNo, SeqNo(c.request);
            && 0 < re && n <= max && c.table.Slot(n) == n / re
            && (re <= max ==> c.table.Slot(re) == 1 < |c.table.tx|)
            && (re <= n <==> 1 <= n / re)
            && (Ahead(n, re) <= max ==> re <= max)
            && Timeline(c.table.tx, n / re, c.now)
  {
    var re, max, n := c.table.replyEvery, c.table.maxSequenceNo, SeqNo(c.request);
    MultipleFloor(1, re);
    FloorIs(n, re, n / re);
    FloorAtMost(n, re);
    if 1 <= n / re {
      MulMono(1, n / re, re);
    }
    MulMono(1, n / re + 1, re);
  }
}
