// The classification loop of client_statistics (src/client.cpp): which of the requests sent in the
// measured window were answered in order, lost, or overtaken.
module Statistics {
  import opened Arith
  import opened Packet

  /** Division of a duration by a positive integer, towards zero. */
  function Quotient(a: int, b: int): int
    requires b > 0
  {
    if a >= 0 then a / b else -((-a) / b)
  }

  /** That is: what is left over has the sign of the duration and is smaller than the divisor. */
  lemma QuotientMeans(a: int, b: int)
    requires b > 0
    ensures var q := Quotient(a, b);
            if a >= 0 then 0 <= q * b <= a < q * b + b else q * b - b < a <= q * b <= 0
  {
    var m := if a >= 0 then a else -a;
    FloorIs(m, b, m / b);
    FloorAtMost(m, b);
    MulMono(0, m / b, b);
    assert (-(m / b)) * b == -(m / b * b);
  }

  function SumOf(xs: seq<int>): int {
    if xs == [] then 0 else SumOf(xs[..|xs| - 1]) + xs[|xs| - 1]
  }

  // --- the declarative classification ---

  /** The times of one server's replies by slot, and where the search and the window start. */
  datatype View = View(tx: seq<int>, rx: seq<int>, testStart: int, first: nat) {

    predicate InWindow(i: nat)
      requires i < |tx|
    {
      testStart <= tx[i]
    }

    /** The reply to some request of the window sent earlier arrived strictly later. */
    ghost predicate Overtaken(i: nat)
      requires i < |tx| == |rx|
    {
      exists j :: first <= j < i && InWindow(j) && rx[j] > rx[i]
    }

    /** Answered in order. */
    ghost predicate Good(i: nat)
      requires i < |tx| == |rx|
    {
      InWindow(i) && rx[i] != 0 && !Overtaken(i)
    }

    ghost function Windowed(hi: nat): nat
      requires hi <= |tx| == |rx|
    {
      if hi <= first then 0 else Windowed(hi - 1) + if InWindow(hi - 1) then 1 else 0
    }

    ghost function Dropped(hi: nat): nat
      requires hi <= |tx| == |rx|
    {
      if hi <= first then 0 else Dropped(hi - 1) + if InWindow(hi - 1) && rx[hi - 1] == 0 then 1 else 0
    }

    ghost function OutOfOrder(hi: nat): nat
      requires hi <= |tx| == |rx|
    {
      if hi <= first then 0
      else OutOfOrder(hi - 1) + if InWindow(hi - 1) && rx[hi - 1] != 0 && Overtaken(hi - 1) then 1 else 0
    }

    /** The slots answered in order, in the order they were sent. */
    ghost function Accepted(hi: nat): (a: seq<nat>)
      requires hi <= |tx| == |rx|
      ensures forall k | 0 <= k < |a| :: first <= a[k] < hi
    {
      if hi <= first then [] else Accepted(hi - 1) + if Good(hi - 1) then [hi - 1] else []
    }

    ghost function Rtt(i: nat): int
      requires i < |tx| == |rx|
    {
      rx[i] - tx[i]
    }

    ghost function SumRtt(hi: nat): int
      requires hi <= |tx| == |rx|
    {
      if hi <= first then 0 else SumRtt(hi - 1) + if Good(hi - 1) then Rtt(hi - 1) else 0
    }

    /** Their latencies: the round-trip times, divided. */
    ghost function Latencies(hi: nat, d: nat): seq<int>
      requires hi <= |tx| == |rx| && d > 0
    {
      if hi <= first then [] else Latencies(hi - 1, d) + if Good(hi - 1) then [Quotient(Rtt(hi - 1), d)] else []
    }

    /** The slots sent in the window, those not answered, and those overtaken, said with the times. */
    ghost function Sent(hi: nat): set<nat>
      requires hi <= |tx| == |rx|
    {
      set i: nat | first <= i < hi && testStart <= tx[i]
    }

    ghost function Lost(hi: nat): set<nat>
      requires hi <= |tx| == |rx|
    {
      set i: nat | first <= i < hi && testStart <= tx[i] && rx[i] == 0
    }

    ghost function Late(hi: nat): set<nat>
      requires hi <= |tx| == |rx|
    {
      set i: nat | first <= i < hi && testStart <= tx[i] && rx[i] != 0 &&
                   exists j :: first <= j < i && testStart <= tx[j] && rx[i] < rx[j]
    }

    lemma {:induction false} SentSize(hi: nat)
      requires hi <= |tx| == |rx|
      ensures Windowed(hi) == |Sent(hi)|
    {
      if hi > first {
        SentSize(hi - 1);
        assert hi - 1 !in Sent(hi - 1);
        assert Sent(hi) == Sent(hi - 1) + if testStart <= tx[hi - 1] then {hi - 1} else {};
      } else {
        assert Sent(hi) == {};
      }
    }

    lemma {:induction false} LostSize(hi: nat)
      requires hi <= |tx| == |rx|
      ensures Dropped(hi) == |Lost(hi)|
    {
      if hi > first {
        LostSize(hi - 1);
        assert hi - 1 !in Lost(hi - 1);
        assert Lost(hi) == Lost(hi - 1) + if testStart <= tx[hi - 1] && rx[hi - 1] == 0 then {hi - 1} else {};
      } else {
        assert Lost(hi) == {};
      }
    }

    lemma {:induction false} LateSize(hi: nat)
      requires hi <= |tx| == |rx|
      ensures OutOfOrder(hi) == |Late(hi)|
    {
      hide View.Overtaken;
      if hi > first {
        LateSize(hi - 1);
        LateNext(hi - 1);
      } else {
        assert Late(hi) == {};
      }
    }

    lemma LateNext(i: nat)
      requires first <= i < |tx| == |rx|
      ensures i !in Late(i)
      ensures Late(i + 1) == Late(i) + if InWindow(i) && rx[i] != 0 && Overtaken(i) then {i} else {}
    {
      assert Overtaken(i) <==> exists j :: first <= j < i && testStart <= tx[j] && rx[i] < rx[j];
    }

    /** The counts are the sizes of these sets. */
    lemma CountsAreSizes(hi: nat)
      requires hi <= |tx| == |rx|
      ensures Windowed(hi) == |Sent(hi)| && Dropped(hi) == |Lost(hi)| && OutOfOrder(hi) == |Late(hi)|
    {
      hide View.Windowed, View.Dropped, View.OutOfOrder, View.Sent, View.Lost, View.Late;
      SentSize(hi);
      LostSize(hi);
      LateSize(hi);
    }

    /** The accepted slots are exactly those of the window that were answered, and before which no slot
        of the window was answered later. */
    lemma {:induction false} InAccepted(hi: nat, i: nat)
      requires hi <= |tx| == |rx|
      ensures i in Accepted(hi) <==>
                && first <= i < hi && testStart <= tx[i] && rx[i] != 0
                && forall j | first <= j < i && testStart <= tx[j] :: rx[j] <= rx[i]
    {
      if hi > first {
        InAccepted(hi - 1, i);
        if i == hi - 1 {
          assert i !in Accepted(hi - 1);
          assert Overtaken(i) <==> exists j :: first <= j < i && testStart <= tx[j] && rx[j] > rx[i];
        }
      }
    }

    /** Every request of the window is counted exactly once. */
    lemma {:induction false} EachOnce(hi: nat)
      requires hi <= |tx| == |rx|
      ensures |Accepted(hi)| + Dropped(hi) + OutOfOrder(hi) == Windowed(hi)
    {
      if hi > first {
        EachOnce(hi - 1);
      }
    }

    lemma {:induction false} LatencyOf(hi: nat, d: nat, k: nat)
      requires hi <= |tx| == |rx| && d > 0
      requires k < |Accepted(hi)|
      ensures |Latencies(hi, d)| == |Accepted(hi)| && Latencies(hi, d)[k] == Quotient(Rtt(Accepted(hi)[k]), d)
    {
      SameLength(hi, d);
      if k < |Accepted(hi - 1)| {
        LatencyOf(hi - 1, d, k);
      } else {
        SameLength(hi - 1, d);
      }
    }

    lemma {:induction false} SameLength(hi: nat, d: nat)
      requires hi <= |tx| == |rx| && d > 0
      ensures |Latencies(hi, d)| == |Accepted(hi)|
    {
      if hi > first {
        SameLength(hi - 1, d);
      }
    }

    ghost function Rtts(a: seq<nat>): (r: seq<int>)
      requires |tx| == |rx| && forall k | 0 <= k < |a| :: a[k] < |tx|
      ensures |r| == |a| && forall k | 0 <= k < |a| :: r[k] == Rtt(a[k])
    {
      seq(|a|, k requires 0 <= k < |a| => Rtt(a[k]))
    }

    /** The sum of round-trip times is that of the accepted slots. */
    lemma {:induction false} SumOfAccepted(hi: nat)
      requires hi <= |tx| == |rx|
      ensures SumRtt(hi) == SumOf(Rtts(Accepted(hi)))
    {
      if hi > first {
        hide View.Overtaken;
        SumOfAccepted(hi - 1);
        if Good(hi - 1) {
          var rs := Rtts(Accepted(hi));
          assert rs[..|rs| - 1] == Rtts(Accepted(hi - 1));
        } else {
          assert Accepted(hi) == Accepted(hi - 1);
        }
      }
    }

    ghost predicate Orderly(a: seq<nat>)
      requires |tx| == |rx|
    {
      && (forall k | 0 <= k < |a| :: first <= a[k] < |tx| && Good(a[k]))
      && (forall k, l | 0 <= k < l < |a| :: a[k] < a[l] < |tx| && rx[a[k]] <= rx[a[l]])
    }

    /** The accepted slots are good ones in the order of sending, and their replies came in that
        order. */
    lemma {:induction false} AcceptedInOrder(hi: nat)
      requires hi <= |tx| == |rx|
      ensures Orderly(Accepted(hi))
    {
      if hi > first {
        AcceptedInOrder(hi - 1);
        var b := Accepted(hi - 1);
        if Good(hi - 1) {
          forall k | 0 <= k < |b|
            ensures b[k] < hi - 1 && rx[b[k]] <= rx[hi - 1]
          {
            assert Good(b[k]);
          }
        }
      }
    }
  }

  // --- early stop ---

  lemma {:induction false} NonZeroSplit(row: seq<int>, k: nat)
    requires k <= |row|
    ensures NonZero(row) == NonZero(row[..k]) + NonZero(row[k..])
  {
    if k < |row| {
      NonZeroSplit(row[..|row| - 1], k);
      assert row[..|row| - 1][..k] == row[..k];
      assert row[..|row| - 1][k..] == row[k..][..|row| - 1 - k];
    } else {
      assert row[..k] == row;
    }
  }

  lemma {:induction false} NonZeroNone(row: seq<int>, i: nat)
    requires NonZero(row) == 0 && i < |row|
    ensures row[i] == 0
  {
    if i < |row| - 1 {
      NonZeroNone(row[..|row| - 1], i);
    }
  }

  lemma {:induction false} AcceptedAtMost(v: View, hi: nat)
    requires hi <= |v.tx| == |v.rx|
    ensures |v.Accepted(hi)| <= NonZero(v.rx[..hi])
  {
    if hi > v.first {
      AcceptedAtMost(v, hi - 1);
      assert v.rx[..hi][..hi - 1] == v.rx[..hi - 1];
    }
  }

  /** When as many replies have been accepted as were recorded at all, none is left: stopping there
      loses nothing, and none was overtaken. */
  lemma StopIsLossless(v: View, hi: nat)
    requires hi <= |v.tx| == |v.rx|
    requires |v.Accepted(hi)| == NonZero(v.rx)
    ensures forall i | hi <= i < |v.rx| :: v.rx[i] == 0
    ensures forall i | 0 <= i < hi && v.rx[i] != 0 :: i in v.Accepted(hi)
  {
    AcceptedAtMost(v, hi);
    NonZeroSplit(v.rx, hi);
    forall i | hi <= i < |v.rx|
      ensures v.rx[i] == 0
    {
      NonZeroNone(v.rx[hi..], i - hi);
    }
    AllAccepted(v, hi);
  }

  lemma {:induction false} AllAccepted(v: View, hi: nat)
    requires hi <= |v.tx| == |v.rx|
    requires |v.Accepted(hi)| == NonZero(v.rx[..hi])
    ensures forall i | 0 <= i < hi && v.rx[i] != 0 :: i in v.Accepted(hi)
  {
    if hi > v.first {
      assert v.rx[..hi][..hi - 1] == v.rx[..hi - 1];
      AcceptedAtMost(v, hi - 1);
      AllAccepted(v, hi - 1);
    } else {
      forall i | 0 <= i < hi
        ensures v.rx[i] == 0
      {
        NonZeroNone(v.rx[..hi], i);
      }
    }
  }

  lemma {:induction false} MoreAccepted(v: View, lo: nat, hi: nat)
    requires lo <= hi <= |v.tx| == |v.rx|
    ensures |v.Accepted(lo)| <= |v.Accepted(hi)|
    ensures v.Dropped(lo) <= v.Dropped(hi)
  {
    if lo < hi {
      MoreAccepted(v, lo, hi - 1);
    }
  }

  function Column(rx: seq<seq<int>>, server: nat): (c: seq<int>)
    requires forall s | 0 <= s < |rx| :: server < |rx[s]|
    ensures |c| == |rx| && forall s | 0 <= s < |rx| :: c[s] == rx[s][server]
  {
    seq(|rx|, s requires 0 <= s < |rx| => rx[s][server])
  }

  lemma {:induction false} NonZeroSome(row: seq<int>, i: nat)
    requires i < |row| && row[i] != 0
    ensures NonZero(row) >= 1
  {
    if i < |row| - 1 {
      NonZeroSome(row[..|row| - 1], i);
    }
  }

  /** One server's replies are among those recorded. */
  lemma {:induction false} ColumnAtMost(rx: seq<seq<int>>, server: nat)
    requires forall s | 0 <= s < |rx| :: server < |rx[s]|
    ensures NonZero(Column(rx, server)) <= NonZeroCells(rx)
  {
    if rx != [] {
      ColumnAtMost(rx[..|rx| - 1], server);
      assert Column(rx, server)[..|rx| - 1] == Column(rx[..|rx| - 1], server);
      var row := rx[|rx| - 1];
      if row[server] != 0 {
        NonZeroSome(row, server);
      }
    }
  }

  // --- the loop ---

  /** t is the largest receive time of the window before slot i. */
  ghost predicate IsLatest(v: View, i: nat, t: int)
    requires i <= |v.tx| == |v.rx|
  {
    && 0 <= t
    && (forall j | v.first <= j < i && v.InWindow(j) :: v.rx[j] <= t)
    && (t == 0 || exists j :: v.first <= j < i && v.InWindow(j) && v.rx[j] == t)
  }

  /** Comparing with the latest time only is comparing with all before. */
  lemma LatestDecides(v: View, i: nat, t: int)
    requires v.first <= i < |v.tx| == |v.rx| && IsLatest(v, i, t) && 0 <= v.rx[i]
    ensures v.rx[i] != 0 ==> (v.rx[i] < t <==> v.Overtaken(i))
    ensures IsLatest(v, i + 1, if v.InWindow(i) && t <= v.rx[i] then v.rx[i] else t)
  {
    if v.rx[i] < t {
      var j :| v.first <= j < i && v.InWindow(j) && v.rx[j] == t;
    }
    var t' := if v.InWindow(i) && t <= v.rx[i] then v.rx[i] else t;
    if t' != 0 {
      if t' == t {
        var j :| v.first <= j < i && v.InWindow(j) && v.rx[j] == t;
        assert v.first <= j < i + 1;
      } else {
        assert v.InWindow(i) && v.rx[i] == t';
      }
    }
  }

  /** What the loop has counted when it gets to slot i. */
  ghost predicate Tally(v: View, i: nat, d: nat, latencies: seq<int>, sumRtt: int, dropped: int, ooo: int)
    requires i <= |v.tx| == |v.rx| && d > 0
  {
    && latencies == v.Latencies(i, d) && |latencies| == |v.Accepted(i)| && sumRtt == v.SumRtt(i)
    && dropped == v.Dropped(i) && ooo == v.OutOfOrder(i)
  }

  lemma TallyStep(v: View, i: nat, d: nat, latencies: seq<int>, sumRtt: int, dropped: int, ooo: int)
    requires v.first <= i < |v.tx| == |v.rx| && d > 0
    requires Tally(v, i, d, latencies, sumRtt, dropped, ooo)
    ensures !v.InWindow(i) ==> Tally(v, i + 1, d, latencies, sumRtt, dropped, ooo)
    ensures v.InWindow(i) && v.rx[i] == 0 ==> Tally(v, i + 1, d, latencies, sumRtt, dropped + 1, ooo)
    ensures v.InWindow(i) && v.rx[i] != 0 && v.Overtaken(i) ==> Tally(v, i + 1, d, latencies, sumRtt, dropped, ooo + 1)
    ensures v.Good(i) ==>
              Tally(v, i + 1, d, latencies + [Quotient(v.rx[i] - v.tx[i], d)], sumRtt + (v.rx[i] - v.tx[i]), dropped,
                    ooo)
  {
  }

  class Classifier {
    const table: PacketTimes
    const server: nat
    var dropped: nat        // m_pErrors[server]
    var ooo: nat

    ghost predicate Valid()
      reads table, table.times, table.duplicates
    {
      && table.Valid() && server < table.blockSize - 1
      && forall s | 0 <= s < |table.rx| :: 0 <= table.rx[s][server]
    }

    ghost function ViewOf(testStart: int, first: nat): View
      reads table, table.times, table.duplicates
      requires Valid()
    {
      View(table.tx, Column(table.rx, server), testStart, first)
    }

    constructor (table: PacketTimes, server: nat)
      ensures this.table == table && this.server == server && dropped == 0 && ooo == 0
    {
      this.table, this.server, dropped, ooo := table, server, 0, 0;
    }

    function SeqNoOf(i: nat): nat {
      i * table.replyEvery
    }

    /** Reads the times of slot i. */
    method Read(i: nat, ghost v: View) returns (txTime: int, rxTime: int)
      requires Valid() && i < |v.tx| && v == ViewOf(v.testStart, v.first)
      ensures |v.rx| == |v.tx| && txTime == v.tx[i] && rxTime == v.rx[i] && 0 <= rxTime
    {
      SlotOf(i);
      txTime := table.GetTxTime(SeqNoOf(i));
      rxTime := table.GetRxTime(SeqNoOf(i), server);
    }

    /** What ends the loop at slot i. */
    ghost predicate Ends(v: View, i: nat, testEnd: int, endNumber: int)
      requires i < |v.tx|
    {
      v.tx[i] > testEnd || v.tx[i] == 0 || (endNumber >= 0 && SeqNoOf(i) >= endNumber)
    }

    /** Classifies slot i, which has the times txTime and rxTime. */
    method Visit(txTime: int, rxTime: int, testStart: int, denominator: nat, prevRxTime: int, latencies: array<int>,
                 counter: nat, sumRtt: int, ghost v: View, ghost i: nat, ghost dropped0: nat, ghost ooo0: nat)
      returns (prevRxTime': int, counter': nat, sumRtt': int)
      requires v.first <= i < |v.tx| == |v.rx| && v.tx[i] == txTime && v.rx[i] == rxTime >= 0
      requires v.testStart == testStart
      requires 0 < denominator && counter < latencies.Length && IsLatest(v, i, prevRxTime)
      requires Tally(v, i, denominator, latencies[..counter], sumRtt, dropped - dropped0, ooo - ooo0)
      modifies latencies, this`dropped, this`ooo
      ensures counter' <= counter + 1 && IsLatest(v, i + 1, prevRxTime')
      ensures Tally(v, i + 1, denominator, latencies[..counter'], sumRtt', dropped - dropped0, ooo - ooo0)
    {
      hide Tally, IsLatest, Quotient;
      LatestDecides(v, i, prevRxTime);
      TallyStep(v, i, denominator, latencies[..counter], sumRtt, dropped - dropped0, ooo - ooo0);
      prevRxTime', counter', sumRtt' := prevRxTime, counter, sumRtt;
      if txTime < testStart {
        return;
      }
      if rxTime == 0 {
        dropped := dropped + 1;
        LatestUnchanged(v, i, prevRxTime);
        return;
      }
      if rxTime < prevRxTime {
        ooo := ooo + 1;
        return;
      }
      sumRtt' := sumRtt + (rxTime - txTime);
      ghost var before := latencies[..counter];
      latencies[counter] := Quotient(rxTime - txTime, denominator);
      prevRxTime' := rxTime;
      counter' := counter + 1;
      assert latencies[..counter'] == before + [Quotient(rxTime - txTime, denominator)];
    }

    lemma LatestUnchanged(v: View, i: nat, t: int)
      requires v.first <= i < |v.tx| == |v.rx| && IsLatest(v, i, t) && v.rx[i] == 0
      ensures IsLatest(v, i + 1, t)
    {
      if t != 0 {
        var j :| v.first <= j < i && v.InWindow(j) && v.rx[j] == t;
        assert v.first <= j < i + 1;
      }
    }

    /** The loop ends at slot stop, because of it or because all replies are accepted. */
    ghost predicate StopsAt(v: View, stop: nat, size: nat, testEnd: int, endNumber: int)
      requires |v.tx| == |v.rx|
    {
      && v.first <= stop <= |v.tx|
      && (forall i | v.first <= i < stop :: !Ends(v, i, testEnd, endNumber) && |v.Accepted(i)| < size)
      && (|v.Accepted(stop)| == size || (stop < |v.tx| && Ends(v, stop, testEnd, endNumber)))
    }

    /** The loop runs out of the table, which ends the program. */
    ghost predicate RunsOut(v: View, size: nat, testEnd: int, endNumber: int)
      requires |v.tx| == |v.rx|
    {
      && |v.Accepted(|v.tx|)| < size
      && forall i | v.first <= i < |v.tx| :: !Ends(v, i, testEnd, endNumber)
    }

    /** The loop: size is the number of replies recorded, endNumber the sequence number to stop at
        (-1: none), denominator 1 or 2. */
    method Classify(size: nat, testStart: int, testEnd: int, first: nat, endNumber: int, denominator: nat,
                    ghost v: View)
      returns (latencies: array<int>, counter: nat, sumRtt: int, exceeded: bool, stop: nat)
      requires Valid() && 0 < size && 0 < denominator && v == ViewOf(testStart, first)
      modifies this`dropped, this`ooo
      ensures |v.tx| == |v.rx| && (exceeded <==> RunsOut(v, size, testEnd, endNumber))
      ensures latencies.Length == size && fresh(latencies)
      ensures !exceeded ==>
                && StopsAt(v, stop, size, testEnd, endNumber)
                && counter == |v.Accepted(stop)| <= size
                && (forall i | first <= i < stop :: 0 != v.tx[i] <= testEnd)
                && (endNumber >= 0 ==> forall i | first <= i < stop :: SeqNoOf(i) < endNumber)
                && (counter < size ==>
                      || v.tx[stop] == 0 || v.tx[stop] > testEnd
                      || (endNumber >= 0 && SeqNoOf(stop) >= endNumber))
                && latencies[..counter] == v.Latencies(stop, denominator) && sumRtt == v.SumRtt(stop)
                && dropped == old(dropped) + v.Dropped(stop) && ooo == old(ooo) + v.OutOfOrder(stop)
    {
      hide Tally, IsLatest, Quotient, View.Accepted, View.Latencies, View.SumRtt, View.Dropped, View.OutOfOrder,
           Classifier.SeqNoOf, PacketTimes.Valid, Classifier.Valid, Classifier.ViewOf, Column;
      ViewFacts(v, testStart, first);
      latencies := new int[size];
      counter, sumRtt, exceeded, stop := 0, 0, false, 0;
      var prevRxTime := 0;
      var i := first;
      InTable(i);
      if SeqNoOf(first) > table.maxSequenceNo {
        NoneBefore(v, |v.tx|);
        exceeded := true;
        return;
      }
      Start(v, denominator);
      NoneBefore(v, first);
      assert latencies[..0] == [];
      while counter < size
        invariant first <= i <= |v.tx| && counter <= size && Valid()
        invariant forall j | first <= j < i :: !Ends(v, j, testEnd, endNumber) && |v.Accepted(j)| < size
        invariant IsLatest(v, i, prevRxTime)
        invariant Tally(v, i, denominator, latencies[..counter], sumRtt, dropped - old(dropped), ooo - old(ooo))
        decreases |v.tx| - i, size - counter
      {
        TallyMeans(v, i, denominator, latencies[..counter], sumRtt, dropped - old(dropped), ooo - old(ooo));
        InTable(i);
        if SeqNoOf(i) > table.maxSequenceNo {
          exceeded := true;
          return;
        }
        var txTime, rxTime := Read(i, v);
        if txTime > testEnd || txTime == 0 {
          break;
        }
        if endNumber >= 0 && SeqNoOf(i) >= endNumber {
          break;
        }
        prevRxTime, counter, sumRtt :=
          Visit(txTime, rxTime, testStart, denominator, prevRxTime, latencies, counter, sumRtt, v, i, old(dropped),
                old(ooo));
        i := i + 1;
      }
      stop := i;
      assert counter == size || Ends(v, stop, testEnd, endNumber);
      TallyMeans(v, stop, denominator, latencies[..counter], sumRtt, dropped - old(dropped), ooo - old(ooo));
      MoreAccepted(v, stop, |v.tx|);
      StopMeans(v, stop, size, testEnd, endNumber);
    }

    /** All slots visited were sent in time and are within the number; the one that ended the loop is
        not. */
    lemma StopMeans(v: View, stop: nat, size: nat, testEnd: int, endNumber: int)
      requires |v.tx| == |v.rx| && StopsAt(v, stop, size, testEnd, endNumber)
      ensures forall i | v.first <= i < stop :: 0 != v.tx[i] <= testEnd
      ensures endNumber >= 0 ==> forall i | v.first <= i < stop :: SeqNoOf(i) < endNumber
      ensures |v.Accepted(stop)| == size || (stop < |v.tx| &&
                (v.tx[stop] == 0 || v.tx[stop] > testEnd || (endNumber >= 0 && SeqNoOf(stop) >= endNumber)))
    {
      hide View.Accepted, Classifier.SeqNoOf;
      forall i | v.first <= i < stop
        ensures 0 != v.tx[i] <= testEnd && (endNumber >= 0 ==> SeqNoOf(i) < endNumber)
      {
        assert !Ends(v, i, testEnd, endNumber);
      }
    }

    /** A slot has its place in the table exactly if its sequence number is not too large. */
    lemma InTable(i: nat)
      requires Valid()
      ensures i < |table.tx| <==> SeqNoOf(i) <= table.maxSequenceNo
    {
      var max, re := table.maxSequenceNo, table.replyEvery;
      FloorIs(max, re, max / re);
      if i < |table.tx| {
        MulMono(i, max / re, re);
      } else {
        MulMono(max / re + 1, i, re);
      }
    }

    lemma NoneBefore(v: View, hi: nat)
      requires hi <= v.first && hi <= |v.tx| == |v.rx|
      ensures v.Accepted(hi) == []
    {
    }

    /** Where the loop would end but for the number of replies. */
    ghost predicate WindowEnds(v: View, end: nat, testEnd: int, endNumber: int)
      requires |v.tx| == |v.rx|
    {
      && v.first <= end < |v.tx| && Ends(v, end, testEnd, endNumber)
      && forall i | v.first <= i < end :: !Ends(v, i, testEnd, endNumber)
    }

    /** A request of the window, the last one before end, that was not answered. */
    ghost predicate LastIsLost(v: View, end: nat)
      requires end <= |v.tx| == |v.rx|
    {
      exists i :: v.first <= i < end && v.InWindow(i) && v.rx[i] == 0 && forall j | i < j < end :: !v.InWindow(j)
    }

    /** The drops reported are those of the whole window, except if every reply recorded is accepted
        and the last request of the window was lost: then the loop stops before it. */
    lemma DroppedExactly(v: View, testStart: int, stop: nat, end: nat, testEnd: int, endNumber: int)
      requires Valid() && v == ViewOf(testStart, v.first) && |v.tx| == |v.rx| && 0 < table.receiveCount
      requires StopsAt(v, stop, table.receiveCount, testEnd, endNumber) && WindowEnds(v, end, testEnd, endNumber)
      ensures stop <= end
      ensures v.Dropped(stop) == v.Dropped(end) <==>
                !(|v.Accepted(end)| == table.receiveCount && LastIsLost(v, end))
    {
      hide PacketTimes.Valid, Classifier.ViewOf, View.Accepted, View.Dropped, View.Overtaken, Classifier.LastIsLost;
      var size := table.receiveCount;
      ViewFacts(v, testStart, v.first);
      MoreAccepted(v, stop, end);
      if |v.Accepted(stop)| == size {
        NothingLeft(v, testStart, v.first, stop);
        LateDrops(v, stop, end);
        LastAnswered(v, stop, size);
        LostAfter(v, stop, end);
        AcceptedAtMostRecorded(v, end);
      } else {
        assert stop == end;
        assert |v.Accepted(end)| < size by { AcceptedAtMostRecorded(v, end); }
      }
    }

    lemma AcceptedAtMostRecorded(v: View, hi: nat)
      requires Valid() && v == ViewOf(v.testStart, v.first) && hi <= |v.tx| == |v.rx|
      ensures |v.Accepted(hi)| <= table.receiveCount
    {
      ColumnAtMost(table.rx, server);
      AcceptedAtMost(v, hi);
      NonZeroSplit(v.rx, hi);
    }

    /** The slot where the number of replies was reached was answered. */
    lemma LastAnswered(v: View, stop: nat, size: nat)
      requires v.first <= stop <= |v.tx| == |v.rx| && 0 < size == |v.Accepted(stop)|
      requires forall i | v.first <= i < stop :: |v.Accepted(i)| < size
      ensures v.first < stop && v.InWindow(stop - 1) && v.rx[stop - 1] != 0
    {
      if v.first < stop {
        assert |v.Accepted(stop - 1)| < size;
      }
    }

    lemma LostAfter(v: View, stop: nat, end: nat)
      requires v.first < stop <= end <= |v.tx| == |v.rx| && forall i | stop <= i < end :: v.rx[i] == 0
      requires v.InWindow(stop - 1) && v.rx[stop - 1] != 0
      ensures LastIsLost(v, end) <==> exists i :: stop <= i < end && v.InWindow(i)
    {
      if exists i :: stop <= i < end && v.InWindow(i) {
        var i := LastInWindow(v, stop, end);
        assert v.first <= i < end && v.InWindow(i) && v.rx[i] == 0;
      }
    }

    lemma {:induction false} LastInWindow(v: View, lo: nat, hi: nat) returns (i: nat)
      requires hi <= |v.tx| == |v.rx| && exists i :: lo <= i < hi && v.InWindow(i)
      ensures lo <= i < hi && v.InWindow(i) && forall j | i < j < hi :: !v.InWindow(j)
    {
      if v.InWindow(hi - 1) {
        i := hi - 1;
      } else {
        i := LastInWindow(v, lo, hi - 1);
      }
    }

    /** Where no slot from stop on was answered, every slot of the window there is a drop. */
    lemma {:induction false} LateDrops(v: View, stop: nat, end: nat)
      requires v.first <= stop <= end <= |v.tx| == |v.rx| && forall i | stop <= i < end :: v.rx[i] == 0
      ensures v.Dropped(stop) <= v.Dropped(end)
      ensures v.Dropped(stop) == v.Dropped(end) <==> forall i | stop <= i < end :: !v.InWindow(i)
    {
      if stop < end {
        LateDrops(v, stop, end - 1);
      }
    }

    /** If the loop stops because as many replies were accepted as were recorded, of all servers, then
        every reply of this server was accepted: no slot that was not visited holds one. */
    lemma NothingLeft(v: View, testStart: int, first: nat, stop: nat)
      requires Valid() && v == ViewOf(testStart, first)
      requires stop <= |v.tx| == |v.rx| && |v.Accepted(stop)| == table.receiveCount
      ensures forall i | stop <= i < |v.rx| :: v.rx[i] == 0
      ensures forall i | 0 <= i < stop && v.rx[i] != 0 :: i in v.Accepted(stop)
    {
      ColumnAtMost(table.rx, server);
      AcceptedAtMost(v, stop);
      NonZeroSplit(v.rx, stop);
      StopIsLossless(v, stop);
    }

    lemma ViewFacts(v: View, testStart: int, first: nat)
      requires Valid() && v == ViewOf(testStart, first)
      ensures |v.tx| == |v.rx| && v.first == first && v.testStart == testStart
      ensures v.tx == table.tx && forall s | 0 <= s < |table.rx| :: server < |table.rx[s]|
      ensures v.rx == Column(table.rx, server)
    {
    }

    lemma Start(v: View, d: nat)
      requires v.first <= |v.tx| == |v.rx| && d > 0
      ensures IsLatest(v, v.first, 0) && Tally(v, v.first, d, [], 0, 0, 0)
    {
    }

    lemma TallyMeans(v: View, i: nat, d: nat, latencies: seq<int>, sumRtt: int, dropped: int, ooo: int)
      requires i <= |v.tx| == |v.rx| && d > 0
      requires Tally(v, i, d, latencies, sumRtt, dropped, ooo)
      ensures latencies == v.Latencies(i, d) && |latencies| == |v.Accepted(i)| && sumRtt == v.SumRtt(i)
      ensures dropped == v.Dropped(i) && ooo == v.OutOfOrder(i)
    {
    }

    lemma SlotOf(i: nat)
      requires Valid() && i < |table.tx|
      ensures i * table.replyEvery <= table.maxSequenceNo && table.Slot(i * table.replyEvery) == i
    {
      MultipleFloor(i, table.replyEvery);
      MulMono(i, table.maxSequenceNo / table.replyEvery, table.replyEvery);
    }
  }
}
