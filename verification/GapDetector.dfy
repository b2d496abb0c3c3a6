// The server's gap detector (src/switches.h, src/server.cpp): per client, the highest sequence
// number seen and how many numbers below it were not seen in time.
module GapDetector {
  import opened Arith
  import Messages
  import opened Options
  import opened Sets

  const TWO_64: nat := Messages.TWO_64
  const MAX_SEQ: nat := TWO_64 - 1
  type uint64 = n: int | 0 <= n < TWO_64 witness 0

  datatype Session = Session(seqNum: uint64, totalDrops: uint64, started: bool)

  datatype Packet = Data(n: uint64) | Warmup

  // --- one packet ---

  function CalcGapsNum(expected: uint64, received: uint64): uint64 {
    if received > expected then received - expected else 0
  }

  /** check_gaps, in 64-bit arithmetic. */
  function CheckGaps(s: Session, received: uint64): Session {
    var expected: uint64 := (s.seqNum + 1) % TWO_64;
    if received == expected then
      s.(seqNum := expected)
    else
      var drops := CalcGapsNum(expected, received);
      var total: uint64 := (s.totalDrops + drops) % TWO_64;
      if drops == 0 then s.(totalDrops := total, seqNum := (expected + TWO_64 - 1) % TWO_64)
      else s.(totalDrops := total, seqNum := received)
  }

  /** What a packet does to the session of its client. */
  function Step(s: Option<Session>, p: Packet): Session {
    match (s, p)
    case (None, Warmup) => Session(0, 0, false)
    case (None, Data(n)) => CheckGaps(Session(n, 0, true), n)
    case (Some(s), Warmup) => if s.started then Session(0, 0, false) else s
    case (Some(s), Data(n)) => CheckGaps(s.(started := true), n)
  }

  /** What check_gaps is for: keep the maximum, and count the numbers a new maximum skips. */
  ghost predicate Counts(s: Session, received: uint64, t: Session) {
    && t.seqNum == Max(s.seqNum, received)
    && t.totalDrops == s.totalDrops + (if received > s.seqNum then received - s.seqNum - 1 else 0)
    && t.started == s.started
  }

  /** The sequence number is compared after an increment that wraps around: a step counts right
      exactly as long as the largest 64-bit number has not been seen. */
  lemma CountsExactly(s: Session, received: uint64)
    requires s.totalDrops <= s.seqNum
    ensures Counts(s, received, CheckGaps(s, received)) <==> s.seqNum != MAX_SEQ
  {
  }

  // --- all packets of one client ---

  function Run(ps: seq<Packet>): Option<Session> {
    if ps == [] then None else Some(Step(Run(ps[..|ps| - 1]), ps[|ps| - 1]))
  }

  /** The data of the current session: what arrived since the last warmup packet. */
  function Arrivals(ps: seq<Packet>): seq<uint64> {
    if ps == [] || ps[|ps| - 1].Warmup? then [] else Arrivals(ps[..|ps| - 1]) + [ps[|ps| - 1].n]
  }

  /** Where the current session starts to count: after a warmup from 0, else from its first number. */
  function Base(ps: seq<Packet>): uint64
    requires ps != []
  {
    if Warmup in ps then 0 else ps[0].n
  }

  function Top(b: uint64, ns: seq<uint64>): uint64 {
    if ns == [] then b else Max(Top(b, ns[..|ns| - 1]), ns[|ns| - 1])
  }

  /** The i-th arrival was above the base and above all that came before. */
  predicate IsNewMaximum(b: uint64, ns: seq<uint64>, i: nat)
    requires i < |ns|
  {
    b < ns[i] && forall j | 0 <= j < i :: ns[j] < ns[i]
  }

  ghost predicate OnTime(b: uint64, ns: seq<uint64>, n: int) {
    exists i :: 0 <= i < |ns| && ns[i] == n && IsNewMaximum(b, ns, i)
  }

  /** The numbers up to the highest seen that were not a new maximum when they arrived, if they
      arrived at all. */
  ghost function Missed(b: uint64, ns: seq<uint64>): set<int> {
    set n | n in Range(b + 1, Top(b, ns) + 1) && !OnTime(b, ns, n)
  }

  /** Top is the largest of the base and the arrivals. */
  lemma {:induction false} TopIsMaximum(b: uint64, ns: seq<uint64>)
    ensures b <= Top(b, ns) && forall i | 0 <= i < |ns| :: ns[i] <= Top(b, ns)
    ensures Top(b, ns) == b || Top(b, ns) in ns
  {
    if ns != [] {
      TopIsMaximum(b, ns[..|ns| - 1]);
    }
  }

  /** A missed number never came, or came after a larger one. */
  lemma MissedMeansLostOrLate(b: uint64, ns: seq<uint64>, n: int)
    requires n in Missed(b, ns)
    ensures forall i | 0 <= i < |ns| && ns[i] == n :: exists j | 0 <= j < i :: n <= ns[j]
    ensures n in ns ==> exists i, j :: 0 <= j < i < |ns| && ns[i] == n && n < ns[j]
  {
    if n in ns {
      var i := FirstOf(ns, n);
      assert !IsNewMaximum(b, ns, i);
      var j :| 0 <= j < i && ns[j] >= ns[i];
      assert ns[j] != n;
    }
  }

  lemma FirstOf(ns: seq<uint64>, n: int) returns (i: nat)
    requires n in ns
    ensures i < |ns| && ns[i] == n && forall j | 0 <= j < i :: ns[j] != n
  {
    i := 0;
    while ns[i] != n
      invariant i < |ns| && forall j | 0 <= j < i :: ns[j] != n
      decreases |ns| - i
    {
      i := i + 1;
    }
  }

  lemma OnTimeStep(b: uint64, ns: seq<uint64>, n: uint64, m: int)
    ensures OnTime(b, ns + [n], m) <==> OnTime(b, ns, m) || (m == n && n > Top(b, ns))
  {
    var ms := ns + [n];
    TopIsMaximum(b, ns);
    if OnTime(b, ns, m) {
      var i :| 0 <= i < |ns| && ns[i] == m && IsNewMaximum(b, ns, i);
      assert ms[i] == m && IsNewMaximum(b, ms, i);
    }
    if m == n && n > Top(b, ns) {
      assert ms[|ns|] == m && IsNewMaximum(b, ms, |ns|);
    }
    if OnTime(b, ms, m) {
      var i :| 0 <= i < |ms| && ms[i] == m && IsNewMaximum(b, ms, i);
      if i < |ns| {
        assert forall j | 0 <= j < i :: ns[j] == ms[j];
        assert ns[i] == m && IsNewMaximum(b, ns, i);
      } else if Top(b, ns) in ns {
        var j :| 0 <= j < |ns| && ns[j] == Top(b, ns);
        assert ms[j] < ms[i];
      }
    }
  }

  lemma TopStep(b: uint64, ns: seq<uint64>, n: uint64)
    ensures Top(b, ns + [n]) == Max(Top(b, ns), n)
  {
    assert (ns + [n])[..|ns|] == ns;
  }

  lemma InMissedStep(b: uint64, ns: seq<uint64>, n: uint64, m: int)
    ensures m in Missed(b, ns + [n]) <==> m in Missed(b, ns) || Top(b, ns) < m < n
    ensures m in Missed(b, ns) ==> m <= Top(b, ns)
  {
    hide Top, IsNewMaximum, Range;
    TopIsMaximum(b, ns);
    TopStep(b, ns, n);
    OnTimeStep(b, ns, n, m);
  }

  /** One more arrival adds to the missed numbers exactly those it skips. */
  lemma MissedStep(b: uint64, ns: seq<uint64>, n: uint64)
    ensures Missed(b, ns + [n]) == Missed(b, ns) + Range(Top(b, ns) + 1, n)
    ensures Missed(b, ns) !! Range(Top(b, ns) + 1, n)
    ensures |Missed(b, ns + [n])| == |Missed(b, ns)| + if n > Top(b, ns) then n - Top(b, ns) - 1 else 0
  {
    hide Top, Missed, Range, OnTime;
    forall m: int
      ensures m in Missed(b, ns + [n]) <==> m in Missed(b, ns) || Top(b, ns) < m < n
      ensures m in Missed(b, ns) ==> m <= Top(b, ns)
    {
      InMissedStep(b, ns, n, m);
    }
    var skipped := Range(Top(b, ns) + 1, n);
    assert Missed(b, ns + [n]) == Missed(b, ns) + skipped;
    DisjointSize(Missed(b, ns), skipped);
  }

  lemma MissedBound(b: uint64, ns: seq<uint64>)
    ensures |Missed(b, ns)| <= Top(b, ns) - b
  {
    TopIsMaximum(b, ns);
    SubsetSize(Missed(b, ns), Range(b + 1, Top(b, ns) + 1));
  }

  /** The base and all arrivals but the last are below the largest 64-bit number. */
  ghost predicate InRange(ps: seq<Packet>) {
    Arrivals(ps) != [] ==>
      && Base(ps) < MAX_SEQ
      && forall i | 0 <= i < |Arrivals(ps)| - 1 :: Arrivals(ps)[i] < MAX_SEQ
  }

  /** The gap detector's result for every arrival order: the session keeps the maximum of the base
      and the arrivals, and its total is the number of missed sequence numbers. */
  lemma {:induction false} SessionMeaning(ps: seq<Packet>)
    requires ps != [] && forall k | 0 < k <= |ps| :: InRange(ps[..k])
    ensures Run(ps).Some?
    ensures var s, b, ns := Run(ps).value, Base(ps), Arrivals(ps);
            && s.seqNum == Top(b, ns)
            && s.totalDrops == |Missed(b, ns)|
            && s.started == (ns != [])
  {
    hide Missed, Top, CheckGaps;
    var init, p := ps[..|ps| - 1], ps[|ps| - 1];
    assert ps == init + [p];
    assert ps[..|ps|] == ps;
    if init != [] {
      forall k | 0 < k <= |init|
        ensures InRange(init[..k])
      {
        assert init[..k] == ps[..k];
      }
      SessionMeaning(init);
    }
    match p
    case Warmup =>
      NothingMissed(0);
    case Data(n) =>
      var ns, b := Arrivals(init), Base(ps);
      assert Arrivals(ps) == ns + [n];
      BelowTop(b, ns, n);
      if init == [] {
        NothingMissed(n);
        DataStep(Session(n, 0, true), b, ns, n);
      } else {
        assert Base(init) == b;
        DataStep(Run(init).value.(started := true), b, ns, n);
      }
  }

  lemma NothingMissed(b: uint64)
    ensures Missed(b, []) == {} && Top(b, []) == b
  {
  }

  /** What a data packet does to a session that has the right maximum and total so far. */
  lemma DataStep(s: Session, b: uint64, ns: seq<uint64>, n: uint64)
    requires s.seqNum == Top(b, ns) < MAX_SEQ && s.totalDrops == |Missed(b, ns)|
    ensures var t := CheckGaps(s, n);
            t.seqNum == Top(b, ns + [n]) && t.totalDrops == |Missed(b, ns + [n])| && t.started == s.started
  {
    hide Missed, Top, Range;
    TopStep(b, ns, n);
    MissedStep(b, ns, n);
    MissedBound(b, ns);
    CountsExactly(s, n);
  }

  lemma BelowTop(b: uint64, ns: seq<uint64>, n: uint64)
    requires b < MAX_SEQ
    requires forall i | 0 <= i < |ns + [n]| - 1 :: (ns + [n])[i] < MAX_SEQ
    ensures Top(b, ns) < MAX_SEQ
  {
    TopIsMaximum(b, ns);
    if Top(b, ns) in ns {
      var i :| 0 <= i < |ns| && ns[i] == Top(b, ns);
      assert (ns + [n])[i] == ns[i];
    }
  }

  /** Beyond that range the result is wrong: after the largest number, any further one. */
  lemma WrapsAround(n: uint64)
    ensures var s := Run([Warmup, Data(MAX_SEQ), Data(n)]);
            !Counts(Run([Warmup, Data(MAX_SEQ)]).value, n, s.value)
  {
    var ps := [Warmup, Data(MAX_SEQ), Data(n)];
    assert ps[..2] == [Warmup, Data(MAX_SEQ)];
    assert [Warmup, Data(MAX_SEQ)][..1] == [Warmup];
    assert Run([Warmup]) == Some(Session(0, 0, false));
    assert Run([Warmup, Data(MAX_SEQ)]) == Some(Step(Run([Warmup]), Data(MAX_SEQ)));
    assert Run(ps) == Some(Step(Run([Warmup, Data(MAX_SEQ)]), Data(n)));
    CountsExactly(Run([Warmup, Data(MAX_SEQ)]).value.(started := true), n);
  }

  // --- all clients ---

  class SwitchOnCalcGaps<K(==)> {
    var sessions: map<K, Session>

    constructor ()
      ensures sessions == map[]
    {
      sessions := map[];
    }

    /** execute: a packet of one client. */
    method Execute(client: K, seqNum: uint64, isWarmup: bool)
      requires isWarmup ==> seqNum == 0
      modifies this
      ensures var s := if client in old(sessions) then Some(old(sessions)[client]) else None;
              sessions == old(sessions)[client := Step(s, if isWarmup then Warmup else Data(seqNum))]
    {
      if client !in sessions {
        sessions := sessions[client := Session(seqNum, 0, false)];
      } else if isWarmup && sessions[client].started {
        sessions := sessions[client := Session(seqNum, 0, false)];
      }
      if !isWarmup {
        if !sessions[client].started {
          sessions := sessions[client := sessions[client].(started := true)];
        }
        Check(seqNum, client);
      }
    }

    /** check_gaps. */
    method Check(received: uint64, client: K)
      requires client in sessions
      modifies this
      ensures sessions == old(sessions)[client := CheckGaps(old(sessions)[client], received)]
    {
      var s := sessions[client];
      var next: uint64 := (s.seqNum + 1) % TWO_64;
      s := s.(seqNum := next);
      if received != s.seqNum {
        var drops := CalcGapsNum(s.seqNum, received);
        var total: uint64 := (s.totalDrops + drops) % TWO_64;
        s := s.(totalDrops := total);
        if drops == 0 {
          var back: uint64 := (s.seqNum + TWO_64 - 1) % TWO_64;
          s := s.(seqNum := back);
        } else {
          s := s.(seqNum := received);
        }
      }
      sessions := sessions[client := s];
    }
  }

  function RunAll<K>(ps: seq<(K, Packet)>): map<K, Session> {
    if ps == [] then map[]
    else
      var m := RunAll(ps[..|ps| - 1]);
      var (c, p) := ps[|ps| - 1];
      m[c := Step(if c in m then Some(m[c]) else None, p)]
  }

  function Of<K(==)>(ps: seq<(K, Packet)>, c: K): seq<Packet> {
    if ps == [] then []
    else Of(ps[..|ps| - 1], c) + if ps[|ps| - 1].0 == c then [ps[|ps| - 1].1] else []
  }

  /** The packets of all clients, in any order. */
  method ExecuteAll<K>(gaps: SwitchOnCalcGaps<K>, ps: seq<(K, Packet)>)
    requires gaps.sessions == map[]
    modifies gaps
    ensures gaps.sessions == RunAll(ps)
  {
    hide CheckGaps;
    assert ps[..0] == [];
    for i := 0 to |ps|
      invariant gaps.sessions == RunAll(ps[..i])
    {
      assert ps[..i + 1][..i] == ps[..i];
      match ps[i].1
      case Warmup => gaps.Execute(ps[i].0, 0, true);
      case Data(n) => gaps.Execute(ps[i].0, n, false);
    }
    assert ps[..|ps|] == ps;
  }

  /** Clients do not affect each other: the session of each is that of its own packets alone. */
  lemma {:induction false} ClientsAreIndependent<K>(ps: seq<(K, Packet)>, c: K)
    ensures c in RunAll(ps) <==> Of(ps, c) != []
    ensures c in RunAll(ps) ==> Run(Of(ps, c)) == Some(RunAll(ps)[c])
  {
    if ps != [] {
      var init := ps[..|ps| - 1];
      ClientsAreIndependent(init, c);
      if ps[|ps| - 1].0 == c {
        assert Of(ps, c)[..|Of(ps, c)| - 1] == Of(init, c);
      } else {
        assert Of(ps, c) == Of(init, c);
      }
    }
  }
}
