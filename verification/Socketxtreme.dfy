// The completion queue of the socketxtreme handler (src/iohandlers.h): rings are polled in turn, the
// completions they return are analysed one by one, and packets are given back to the network stack.
module Socketxtreme {
  import opened Options
  import opened Sets

  /** A completion; its event mask may tell of a new connection, of a packet, or of other events. */
  datatype Completion = Completion(newConnection: bool, packet: bool, other: bool, listenFd: nat, userData: nat)

  /** What a ring returned last, and whether its packets were given back. */
  datatype Ring = Ring(list: seq<Completion>, freed: bool)

  type Rings = map<nat, Ring>

  /** What the rings return in a round of polls. */
  type Results = map<nat, seq<Completion>>

  /** A call of the network stack's interface on behalf of a ring. */
  datatype Call = Poll(list: seq<Completion>) | Free(packet: Completion)

  /** The socket a completion is for; 0 means none. */
  function Target(c: Completion): nat {
    if c.newConnection then c.listenFd else if c.packet || c.other then c.userData else 0
  }

  // --- giving packets back ---

  function Frees(list: seq<Completion>): seq<Call> {
    if list == [] then []
    else Frees(list[..|list| - 1]) + if list[|list| - 1].packet then [Free(list[|list| - 1])] else []
  }

  /** Polls, each followed by the return of its packets. */
  function Done(lists: seq<seq<Completion>>): seq<Call> {
    if lists == [] then []
    else Done(lists[..|lists| - 1]) + [Poll(lists[|lists| - 1])] + Frees(lists[|lists| - 1])
  }

  /** The calls for a ring that returned these lists: between two polls, the packets of the first are
      given back, each once; those of the last poll are still in use. */
  ghost predicate Orderly(calls: seq<Call>, lists: seq<seq<Completion>>, ring: Ring) {
    && (ring.freed <==> ring.list == [])
    && if lists == [] then calls == [] && ring.list == []
       else
         && ring.list == lists[|lists| - 1]
         && calls == Done(lists[..|lists| - 1]) + [Poll(ring.list)]
  }

  // What the calls amount to, said of the calls alone.

  /** How many polls there were. */
  function Polls(calls: seq<Call>): nat {
    if calls == [] then 0 else Polls(calls[..|calls| - 1]) + if calls[|calls| - 1].Poll? then 1 else 0
  }

  /** What the polls returned. */
  function PollResults(calls: seq<Call>): seq<seq<Completion>> {
    if calls == [] then []
    else
      PollResults(calls[..|calls| - 1]) +
      match calls[|calls| - 1]
      case Poll(list) => [list]
      case Free(_) => []
  }

  /** What was given back after the j-th poll and before the next. */
  function FreedAfter(calls: seq<Call>, j: nat): multiset<Completion> {
    if calls == [] then multiset{}
    else
      var init := calls[..|calls| - 1];
      FreedAfter(init, j) +
      match calls[|calls| - 1]
      case Poll(_) => multiset{}
      case Free(c) => if Polls(init) == j then multiset{c} else multiset{}
  }

  /** Between two polls exactly the packets that the first returned are given back, as often as it
      returned them; nothing is given back before the first poll or after the last. */
  ghost predicate GivesBack(calls: seq<Call>, lists: seq<seq<Completion>>) {
    && PollResults(calls) == lists
    && forall j: nat, c: Completion :: GivenBack(calls, lists, j, c)
  }

  /** A packet comes back after the j-th poll exactly as often as that poll returned it, if another
      poll follows; what is no packet never does. */
  predicate GivenBack(calls: seq<Call>, lists: seq<seq<Completion>>, j: nat, c: Completion) {
    FreedAfter(calls, j)[c] == if 1 <= j < |lists| && c.packet then multiset(lists[j - 1])[c] else 0
  }

  lemma AfterPoll(calls: seq<Call>, list: seq<Completion>, j: nat)
    ensures Polls(calls + [Poll(list)]) == Polls(calls) + 1
    ensures PollResults(calls + [Poll(list)]) == PollResults(calls) + [list]
    ensures FreedAfter(calls + [Poll(list)], j) == FreedAfter(calls, j)
  {
    assert (calls + [Poll(list)])[..|calls|] == calls;
  }

  lemma AfterFree(calls: seq<Call>, packet: Completion, j: nat)
    ensures Polls(calls + [Free(packet)]) == Polls(calls) && PollResults(calls + [Free(packet)]) == PollResults(calls)
    ensures FreedAfter(calls + [Free(packet)], j) ==
            FreedAfter(calls, j) + if Polls(calls) == j then multiset{packet} else multiset{}
  {
    assert (calls + [Free(packet)])[..|calls|] == calls;
  }

  lemma {:induction false} AfterFrees(calls: seq<Call>, list: seq<Completion>, j: nat, c: Completion)
    ensures Polls(calls + Frees(list)) == Polls(calls) && PollResults(calls + Frees(list)) == PollResults(calls)
    ensures FreedAfter(calls + Frees(list), j)[c] ==
            FreedAfter(calls, j)[c] + if Polls(calls) == j && c.packet then multiset(list)[c] else 0
  {
    hide Polls, PollResults, FreedAfter;
    if list == [] {
      assert calls + Frees(list) == calls;
    } else {
      var init, last := list[..|list| - 1], list[|list| - 1];
      AfterFrees(calls, init, j, c);
      assert list == init + [last];
      if last.packet {
        AfterFree(calls + Frees(init), last, j);
        assert calls + Frees(list) == calls + Frees(init) + [Free(last)];
      } else {
        assert Frees(list) == Frees(init);
      }
    }
  }

  lemma NoCalls(j: nat)
    ensures Polls([]) == 0 && PollResults([]) == [] && FreedAfter([], j) == multiset{}
  {
  }

  lemma {:induction false} DoneGivesBack(lists: seq<seq<Completion>>, j: nat, c: Completion)
    ensures Polls(Done(lists)) == |lists| && PollResults(Done(lists)) == lists
    ensures FreedAfter(Done(lists), j)[c] == if 1 <= j <= |lists| && c.packet then multiset(lists[j - 1])[c] else 0
  {
    hide Frees, Polls, PollResults, FreedAfter;
    if lists == [] {
      NoCalls(j);
    } else {
      var init, last := lists[..|lists| - 1], lists[|lists| - 1];
      DoneGivesBack(init, j, c);
      AfterPoll(Done(init), last, j);
      AfterFrees(Done(init) + [Poll(last)], last, j, c);
      assert lists == init + [last];
    }
  }

  lemma OrderlyGivesBack(calls: seq<Call>, lists: seq<seq<Completion>>, ring: Ring)
    requires Orderly(calls, lists, ring)
    ensures GivesBack(calls, lists)
  {
    hide Done, Polls, PollResults, FreedAfter, GivenBack, Orderly;
    forall j: nat, c: Completion
      ensures GivenBack(calls, lists, j, c)
    {
      OrderlyAt(calls, lists, ring, j, c);
    }
    OrderlyAt(calls, lists, ring, 0, Completion(false, false, false, 0, 0));
  }

  lemma OrderlyAt(calls: seq<Call>, lists: seq<seq<Completion>>, ring: Ring, j: nat, c: Completion)
    requires Orderly(calls, lists, ring)
    ensures PollResults(calls) == lists && GivenBack(calls, lists, j, c)
  {
    hide Done, Polls, PollResults, FreedAfter;
    if lists == [] {
      NoCalls(j);
    } else {
      var init := lists[..|lists| - 1];
      DoneGivesBack(init, j, c);
      AfterPoll(Done(init), ring.list, j);
      assert lists == init + [ring.list];
    }
  }

  lemma FreesNone()
    ensures Frees([]) == []
  {
  }

  lemma OrderlyNext(calls: seq<Call>, lists: seq<seq<Completion>>, ring: Ring, result: seq<Completion>)
    requires Orderly(calls, lists, ring)
    ensures calls + Frees(ring.list) == Done(lists)
    ensures Orderly(calls + Frees(ring.list) + [Poll(result)], lists + [result], Ring(result, result == []))
  {
    FreesNone();
    assert (lists + [result])[..|lists|] == lists;
  }

  // --- the completions to come ---

  function ListOf(rings: Rings, r: nat): seq<Completion> {
    if r in rings then rings[r].list else []
  }

  function Gather(queue: seq<nat>, rings: Rings): seq<Completion> {
    if queue == [] then [] else ListOf(rings, queue[0]) + Gather(queue[1..], rings)
  }

  /** What a ring returns when it is polled. */
  function ResultOf(results: Results, r: nat): seq<Completion> {
    if r in results then results[r] else []
  }

  /** What a round of polls returns, ring by ring. */
  function Round(order: seq<nat>, results: Results): seq<Completion> {
    if order == [] then [] else Round(order[..|order| - 1], results) + ResultOf(results, order[|order| - 1])
  }

  lemma {:induction false} GatherSame(queue: seq<nat>, rings: Rings, rings': Rings)
    requires forall r | r in queue :: ListOf(rings, r) == ListOf(rings', r)
    ensures Gather(queue, rings) == Gather(queue, rings')
  {
    if queue != [] {
      GatherSame(queue[1..], rings, rings');
    }
  }

  lemma {:induction false} GatherNext(queue: seq<nat>, rings: Rings, r: nat)
    ensures Gather(queue + [r], rings) == Gather(queue, rings) + ListOf(rings, r)
  {
    if queue == [] {
      assert (queue + [r])[1..] == [];
    } else {
      assert (queue + [r])[1..] == queue[1..] + [r];
      GatherNext(queue[1..], rings, r);
    }
  }

  /** The rings that returned something. */
  function NonEmpty(order: seq<nat>, results: Results): seq<nat> {
    if order == [] then []
    else NonEmpty(order[..|order| - 1], results) + Filled(order[|order| - 1], ResultOf(results, order[|order| - 1]))
  }

  function Filled(r: nat, result: seq<Completion>): seq<nat> {
    if result == [] then [] else [r]
  }

  function Fresh(result: seq<Completion>): Ring {
    Ring(result, result == [])
  }

  /** The rings after a round of polls. */
  function RingsAfter(rings: Rings, results: Results): Rings {
    map r | r in rings :: Fresh(ResultOf(results, r))
  }

  lemma {:induction false} GatherRound(order: seq<nat>, rings: Rings, results: Results)
    requires forall i | 0 <= i < |order| :: order[i] in rings
    ensures Gather(NonEmpty(order, results), RingsAfter(rings, results)) == Round(order, results)
  {
    hide Gather, RingsAfter;
    if order == [] {
      NothingQueued(RingsAfter(rings, results));
    } else {
      var init, r := order[..|order| - 1], order[|order| - 1];
      GatherRound(init, rings, results);
      GatherNext(NonEmpty(init, results), RingsAfter(rings, results), r);
      ListAfter(rings, results, r);
      assert NonEmpty(init, results) + [] == NonEmpty(init, results);
    }
  }

  lemma NothingQueued(rings: Rings)
    ensures Gather([], rings) == []
  {
  }

  lemma ListAfter(rings: Rings, results: Results, r: nat)
    requires r in rings
    ensures ListOf(RingsAfter(rings, results), r) == ResultOf(results, r)
  {
  }

  lemma EmptyQueue(rings: Rings)
    ensures Queued([], rings)
  {
  }

  lemma QueueNext(queue: seq<nat>, rings: Rings, r: nat)
    requires Queued(queue, rings) && r !in queue && ListOf(rings, r) != []
    ensures Queued(queue + [r], rings)
  {
  }

  lemma LastApart(s: seq<nat>)
    requires Distinct(s) && s != []
    ensures Distinct(s[..|s| - 1]) && s[|s| - 1] !in s[..|s| - 1]
  {
  }

  lemma {:induction false} NonEmptyQueued(order: seq<nat>, rings: Rings, results: Results)
    requires Distinct(order) && forall i | 0 <= i < |order| :: order[i] in rings
    ensures Queued(NonEmpty(order, results), RingsAfter(rings, results))
    ensures forall r | r in NonEmpty(order, results) :: r in order
  {
    hide RingsAfter, Queued, Distinct;
    if order == [] {
      EmptyQueue(RingsAfter(rings, results));
    } else {
      var init, r := order[..|order| - 1], order[|order| - 1];
      LastApart(order);
      NonEmptyQueued(init, rings, results);
      ListAfter(rings, results, r);
      if ResultOf(results, r) != [] {
        QueueNext(NonEmpty(init, results), RingsAfter(rings, results), r);
      }
      assert NonEmpty(init, results) + [] == NonEmpty(init, results);
    }
  }

  lemma RoundNext(order: seq<nat>, results: Results, k: nat)
    requires k < |order|
    ensures Round(order[..k + 1], results) == Round(order[..k], results) + ResultOf(results, order[k])
    ensures NonEmpty(order[..k + 1], results) ==
              NonEmpty(order[..k], results) + Filled(order[k], ResultOf(results, order[k]))
  {
    assert order[..k + 1][..k] == order[..k];
  }

  /** The rings to analyse: each once, and each with something to analyse. */
  ghost predicate Queued(queue: seq<nat>, rings: Rings) {
    && Distinct(queue)
    && forall i | 0 <= i < |queue| :: ListOf(rings, queue[i]) != []
  }

  /** The ring being analysed: not in the queue any more, and not at its end. */
  ghost predicate Open(current: Option<nat>, index: nat, queue: seq<nat>, rings: Rings) {
    current.Some? ==> current.value !in queue && index < |ListOf(rings, current.value)|
  }

  /** What is still to be analysed. */
  ghost function ToCome(current: Option<nat>, index: nat, queue: seq<nat>, rings: Rings): seq<Completion>
    requires Open(current, index, queue, rings)
  {
    (if current.Some? then ListOf(rings, current.value)[index..] else []) + Gather(queue, rings)
  }

  /** Taking the next ring from the queue changes nothing about what is to come. */
  lemma TakeRing(index: nat, queue: seq<nat>, rings: Rings)
    requires Queued(queue, rings) && ToCome(None, index, queue, rings) != []
    ensures queue != [] && Queued(queue[1..], rings) && Open(Some(queue[0]), 0, queue[1..], rings)
    ensures ToCome(Some(queue[0]), 0, queue[1..], rings) == ToCome(None, index, queue, rings)
  {
    assert ListOf(rings, queue[0])[0..] == ListOf(rings, queue[0]);
  }

  /** What is left after the current completion. */
  lemma TakeCompletion(r: nat, index: nat, queue: seq<nat>, rings: Rings)
    requires Open(Some(r), index, queue, rings)
    ensures var list := ListOf(rings, r);
            var all := ToCome(Some(r), index, queue, rings);
            && index < |list| && all != [] && all[0] == list[index] && r in rings && list == rings[r].list
            && (index + 1 < |list| ==>
                  Open(Some(r), index + 1, queue, rings) && ToCome(Some(r), index + 1, queue, rings) == all[1..])
            && (index + 1 == |list| ==> Open(None, 0, queue, rings) && ToCome(None, 0, queue, rings) == all[1..])
  {
    var list := ListOf(rings, r);
    assert list[index..] == [list[index]] + list[index + 1..];
  }

  // --- polls while something is still to be analysed ---

  /** A poll of ring r that returns result adds result to what is to come. */
  ghost predicate Continues(current: Option<nat>, index: nat, queue: seq<nat>, rings: Rings,
                            r: nat, result: seq<Completion>)
    requires Open(current, index, queue, rings)
  {
    var queue', rings' := queue + Filled(r, result), rings[r := Fresh(result)];
    && Open(current, index, queue', rings')
    && ToCome(current, index, queue', rings') == ToCome(current, index, queue, rings) + result
  }

  /** Whatever it returns, exactly if the ring is neither queued nor being analysed. */
  lemma PollExactly(current: Option<nat>, index: nat, queue: seq<nat>, rings: Rings, r: nat)
    requires Queued(queue, rings) && Open(current, index, queue, rings)
    ensures (forall result: seq<Completion> :: Continues(current, index, queue, rings, r, result)) <==>
              r !in queue && current != Some(r)
  {
    if r !in queue && current != Some(r) {
      forall result: seq<Completion>
        ensures Continues(current, index, queue, rings, r, result)
      {
        PollContinues(current, index, queue, rings, r, result);
      }
    } else {
      PollLoses(current, index, queue, rings, r);
    }
  }

  lemma PollContinues(current: Option<nat>, index: nat, queue: seq<nat>, rings: Rings, r: nat, result: seq<Completion>)
    requires Open(current, index, queue, rings) && r !in queue && current != Some(r)
    ensures Continues(current, index, queue, rings, r, result)
  {
    hide Gather;
    var rings' := rings[r := Fresh(result)];
    GatherSame(queue, rings, rings');
    GatherNext(queue, rings', r);
    assert queue + [] == queue;
    var head := if current.Some? then ListOf(rings, current.value)[index..] else [];
    assert head + Gather(queue, rings) + result == head + (Gather(queue, rings) + result);
  }

  lemma PollLoses(current: Option<nat>, index: nat, queue: seq<nat>, rings: Rings, r: nat)
    requires Queued(queue, rings) && Open(current, index, queue, rings) && (r in queue || current == Some(r))
    ensures !Continues(current, index, queue, rings, r, [])
  {
    hide Gather;
    if current != Some(r) {
      assert ListOf(rings, r) != [];
      GatherLess(queue, rings, r);
      assert queue + [] == queue;
    }
  }

  lemma {:induction false} GatherLess(queue: seq<nat>, rings: Rings, r: nat)
    requires ListOf(rings, r) != []
    ensures var rings' := rings[r := Ring([], true)];
            && |Gather(queue, rings')| <= |Gather(queue, rings)|
            && (r in queue ==> |Gather(queue, rings')| < |Gather(queue, rings)|)
  {
    if queue != [] {
      GatherLess(queue[1..], rings, r);
    }
  }

  /** A round of polls that returns results adds them to what is to come. */
  ghost predicate RoundContinues(order: seq<nat>, current: Option<nat>, index: nat, queue: seq<nat>, rings: Rings,
                                 results: Results)
    requires Open(current, index, queue, rings)
  {
    var queue', rings' := queue + NonEmpty(order, results), RingsAfter(rings, results);
    && Open(current, index, queue', rings')
    && ToCome(current, index, queue', rings') == ToCome(current, index, queue, rings) + Round(order, results)
  }

  /** Whatever they return, exactly if nothing was to come: a round must be analysed to its end before
      the next one. */
  lemma RoundExactly(order: seq<nat>, current: Option<nat>, index: nat, queue: seq<nat>, rings: Rings)
    requires Queued(queue, rings) && Open(current, index, queue, rings) && rings.Keys == ToSet(order)
    ensures (forall results: Results :: RoundContinues(order, current, index, queue, rings, results)) <==>
              queue == [] && current == None
  {
    if queue == [] && current == None {
      forall results: Results
        ensures RoundContinues(order, current, index, queue, rings, results)
      {
        InRings(order, rings);
        DrainedContinues(order, index, rings, results);
      }
    } else {
      RoundLoses(order, current, index, queue, rings);
    }
  }

  lemma InRings(order: seq<nat>, rings: Rings)
    requires rings.Keys == ToSet(order)
    ensures forall i | 0 <= i < |order| :: order[i] in rings
  {
    assert forall i | 0 <= i < |order| :: order[i] in ToSet(order);
  }

  lemma DrainedContinues(order: seq<nat>, index: nat, rings: Rings, results: Results)
    requires forall i | 0 <= i < |order| :: order[i] in rings
    ensures RoundContinues(order, None, index, [], rings, results)
  {
    GatherRound(order, rings, results);
    assert [] + NonEmpty(order, results) == NonEmpty(order, results);
  }

  lemma RoundLoses(order: seq<nat>, current: Option<nat>, index: nat, queue: seq<nat>, rings: Rings)
    requires Queued(queue, rings) && Open(current, index, queue, rings) && (queue != [] || current.Some?)
    ensures !RoundContinues(order, current, index, queue, rings, map[])
  {
    NoneReturned(order);
    assert queue + [] == queue;
    if current == None {
      NothingGathered(queue, RingsAfter(rings, map[]));
      assert Gather(queue, rings) != [];
    }
  }

  lemma {:induction false} NoneReturned(order: seq<nat>)
    ensures Round(order, map[]) == [] && NonEmpty(order, map[]) == []
  {
    if order != [] {
      NoneReturned(order[..|order| - 1]);
    }
  }

  lemma {:induction false} NothingGathered(queue: seq<nat>, rings: Rings)
    requires forall r | r in rings :: rings[r].list == []
    ensures Gather(queue, rings) == []
  {
    if queue != [] {
      NothingGathered(queue[1..], rings);
    }
  }

  // --- the handler ---

  /** What happened to a ring so far: the calls made for it, and what it returned. */
  datatype Log = Log(calls: seq<Call>, lists: seq<seq<Completion>>)

  type Logs = map<nat, Log>

  ghost predicate Tidy(order: seq<nat>, rings: Rings, logs: Logs) {
    && Distinct(order) && logs.Keys == rings.Keys == ToSet(order)
    && forall r | r in rings :: Orderly(logs[r].calls, logs[r].lists, rings[r])
  }

  lemma InTidy(order: seq<nat>, rings: Rings, logs: Logs, k: nat)
    requires Tidy(order, rings, logs) && k < |order|
    ensures order[k] in rings && order[k] in logs && order[k] !in order[..k]
  {
    assert order[k] in ToSet(order);
  }

  /** A poll of one ring keeps its log, and leaves the others alone. */
  lemma TidyNext(order: seq<nat>, rings: Rings, logs: Logs, r: nat, result: seq<Completion>)
    requires Tidy(order, rings, logs) && r in rings
    ensures var calls := logs[r].calls + Frees(rings[r].list) + [Poll(result)];
            Tidy(order, rings[r := Ring(result, result == [])], logs[r := Log(calls, logs[r].lists + [result])])
    ensures rings[r].freed ==> logs[r].calls + Frees(rings[r].list) == logs[r].calls
  {
    hide Orderly, Distinct, ToSet;
    OrderlyNext(logs[r].calls, logs[r].lists, rings[r], result);
    NothingToFree(logs[r].calls, logs[r].lists, rings[r]);
  }

  lemma NothingToFree(calls: seq<Call>, lists: seq<seq<Completion>>, ring: Ring)
    requires Orderly(calls, lists, ring)
    ensures ring.freed ==> Frees(ring.list) == []
  {
    FreesNone();
  }

  /** What the first k rings have logged in this round. */
  ghost predicate Polled(order: seq<nat>, k: nat, before: Logs, logs: Logs, results: Results) {
    forall i | 0 <= i < |order| ::
      && order[i] in before && order[i] in logs
      && logs[order[i]].lists == before[order[i]].lists + if i < k then [ResultOf(results, order[i])] else []
  }

  lemma PolledNext(order: seq<nat>, k: nat, before: Logs, logs: Logs, results: Results, log: Log)
    requires Distinct(order) && k < |order| && Polled(order, k, before, logs, results)
    requires log.lists == logs[order[k]].lists + [ResultOf(results, order[k])]
    ensures Polled(order, k + 1, before, logs[order[k] := log], results)
  {
  }

  /** The first k rings hold what they returned, the others what they held before. */
  ghost predicate Refreshed(order: seq<nat>, k: nat, before: Rings, rings: Rings, results: Results) {
    forall i | 0 <= i < |order| ::
      && order[i] in before && order[i] in rings
      && rings[order[i]] == if i < k then Fresh(ResultOf(results, order[i])) else before[order[i]]
  }

  lemma RefreshedNext(order: seq<nat>, k: nat, before: Rings, rings: Rings, results: Results)
    requires Distinct(order) && k < |order| && Refreshed(order, k, before, rings, results)
    ensures Refreshed(order, k + 1, before, rings[order[k] := Fresh(ResultOf(results, order[k]))], results)
  {
  }

  lemma AllRefreshed(order: seq<nat>, before: Rings, rings: Rings, results: Results)
    requires Refreshed(order, |order|, before, rings, results) && before.Keys == rings.Keys == ToSet(order)
    ensures rings == RingsAfter(before, results)
  {
    forall r | r in rings
      ensures rings[r] == Fresh(ResultOf(results, r))
    {
      assert r in ToSet(order);
      var i :| 0 <= i < |order| && order[i] == r;
      assert rings[order[i]] == Fresh(ResultOf(results, order[i]));
    }
  }

  class IoSocketxtreme {
    const order: seq<nat>              // the rings, in the order in which the map is walked
    var rings: Rings          // m_rings_comps_map
    var queue: seq<nat>                // m_comps_queue
    var current: Option<nat>           // m_current_ring_comp
    var index: nat                     // m_comp_index
    var lookEnd: nat

    ghost var logs: Logs             // by ring
    ghost var returned: seq<Completion>       // what all rings returned so far
    ghost var analysed: seq<Completion>

    ghost predicate Valid()
      reads this
    {
      && Tidy(order, rings, logs) && Queued(queue, rings) && Open(current, index, queue, rings)
      && analysed + Pending() == returned
    }

    ghost function Pending(): seq<Completion>
      reads this
      requires Open(current, index, queue, rings)
    {
      ToCome(current, index, queue, rings)
    }

    constructor (order: seq<nat>)
      requires Distinct(order)
      ensures Valid() && this.order == order && queue == [] && current == None && returned == []
      ensures forall r | r in order :: r in logs && logs[r].lists == []
    {
      this.order := order;
      rings := map r | r in order :: Ring([], true);
      queue, current, index, lookEnd := [], None, 0, 0;
      logs := map r | r in order :: Log([], []);
      returned, analysed := [], [];
    }

    /** Gives the packets of a list back. */
    static method FreePackets(list: seq<Completion>, ghost calls: seq<Call>) returns (ghost calls': seq<Call>)
      ensures calls' == calls + Frees(list)
    {
      calls' := calls;
      assert list[..0] == [];
      for i := 0 to |list|
        invariant calls' == calls + Frees(list[..i])
      {
        assert list[..i + 1][..i] == list[..i];
        if list[i].packet {
          calls' := calls' + [Free(list[i])];
        }
      }
      assert list[..|list|] == list;
    }

    /** Polls one ring, after its packets were given back. */
    method PollRing(r: nat, result: seq<Completion>)
      requires Tidy(order, rings, logs) && r in rings && r in logs
      modifies this`rings, this`logs
      ensures Tidy(order, rings, logs)
      ensures rings == old(rings)[r := Ring(result, result == [])]
      ensures exists calls :: logs == old(logs)[r := Log(calls, old(logs)[r].lists + [result])]
    {
      hide Tidy, Frees;
      TidyNext(order, rings, logs, r, result);
      ghost var calls := logs[r].calls;
      if !rings[r].freed {
        calls := FreePackets(rings[r].list, calls);
        rings := rings[r := Ring([], true)];
      }
      calls := calls + [Poll(result)];
      logs := logs[r := Log(calls, logs[r].lists + [result])];
      rings := rings[r := Ring(result, result == [])];
      assert rings == old(rings)[r := Ring(result, result == [])];
    }

    /** Polls one ring and queues it if it returned something. */
    method PollAndQueue(r: nat, result: seq<Completion>)
      requires Tidy(order, rings, logs) && r in rings && r in logs
      modifies this`rings, this`logs, this`queue, this`lookEnd
      ensures Tidy(order, rings, logs)
      ensures rings == old(rings)[r := Fresh(result)]
      ensures queue == old(queue) + Filled(r, result) && lookEnd == old(lookEnd) + |result|
      ensures exists calls :: logs == old(logs)[r := Log(calls, old(logs)[r].lists + [result])]
    {
      hide Tidy;
      PollRing(r, result);
      if |result| > 0 {
        queue := queue + [r];
        lookEnd := lookEnd + |result|;
      }
    }

    /** waitArrival: all rings are polled, after their packets were given back, and those that return
        something are queued.  If the last round was analysed, what is to come is what they returned. */
    method WaitArrival(results: Results) returns (numReady: nat)
      requires Tidy(order, rings, logs)
      modifies this
      ensures Tidy(order, rings, logs) && Polled(order, |order|, old(logs), logs, results)
      ensures rings == RingsAfter(old(rings), results)
      ensures queue == old(queue) + NonEmpty(order, results) && numReady == lookEnd == |Round(order, results)|
      ensures current == old(current) && index == old(index) && analysed == old(analysed)
      ensures returned == old(returned) + Round(order, results)
      ensures old(Valid() && queue == [] && current == None) ==> Valid() && Pending() == Round(order, results)
    {
      hide Tidy, Round, NonEmpty, Polled, Refreshed, Distinct, ToCome, Queued, RingsAfter;
      lookEnd := 0;
      assert order[..0] == [];
      StartRound(order, rings, logs, results);
      assert queue + [] == queue;
      for k := 0 to |order|
        invariant Tidy(order, rings, logs) && Polled(order, k, old(logs), logs, results)
        invariant Refreshed(order, k, old(rings), rings, results)
        invariant queue == old(queue) + NonEmpty(order[..k], results) && lookEnd == |Round(order[..k], results)|
        invariant current == old(current) && index == old(index)
        invariant analysed == old(analysed) && returned == old(returned)
      {
        InTidy(order, rings, logs, k);
        RoundNext(order, results, k);
        RefreshedNext(order, k, old(rings), rings, results);
        ghost var before, was := logs, queue;
        PollAndQueue(order[k], if order[k] in results then results[order[k]] else []);
        PolledNext(order, k, old(logs), before, results, logs[order[k]]);
        assert queue == old(queue) + (NonEmpty(order[..k], results) + Filled(order[k], ResultOf(results, order[k])));
      }
      assert order[..|order|] == order;
      EndRound(order, old(rings), rings, old(logs), logs, results);
      returned := returned + Round(order, results);
      numReady := lookEnd;
      if old(Valid() && queue == [] && current == None) {
        Drained(order, index, old(rings), old(logs), results);
        assert [] + NonEmpty(order, results) == NonEmpty(order, results);
        OldAccount(old(analysed), old(returned), index, old(rings));
      }
    }

    static lemma StartRound(order: seq<nat>, rings: Rings, logs: Logs, results: Results)
      requires Tidy(order, rings, logs)
      ensures Polled(order, 0, logs, logs, results) && Refreshed(order, 0, rings, rings, results) && Distinct(order)
      ensures Round([], results) == [] && NonEmpty([], results) == []
    {
      InRings(order, rings);
    }

    static lemma EndRound(order: seq<nat>, before: Rings, rings: Rings, logs: Logs, logs': Logs,
                          results: Results)
      requires Tidy(order, before, logs) && Tidy(order, rings, logs')
      requires Refreshed(order, |order|, before, rings, results)
      ensures rings == RingsAfter(before, results)
    {
      AllRefreshed(order, before, rings, results);
    }

    /** What is to come after a round, when nothing was to come before. */
    static lemma Drained(order: seq<nat>, index: nat, rings: Rings, logs: Logs, results: Results)
      requires Tidy(order, rings, logs)
      ensures var queue', rings' := NonEmpty(order, results), RingsAfter(rings, results);
              && Queued(queue', rings') && Open(None, index, queue', rings')
              && ToCome(None, index, queue', rings') == Round(order, results)
    {
      hide Round, NonEmpty, Gather;
      InRings(order, rings);
      GatherRound(order, rings, results);
      NonEmptyQueued(order, rings, results);
    }

    static lemma OldAccount(analysed: seq<Completion>, returned: seq<Completion>, index: nat, rings: Rings)
      requires analysed + ToCome(None, index, [], rings) == returned
      ensures analysed == returned
    {
    }

    static lemma Accounted(analysed: seq<Completion>, pending: seq<Completion>, returned: seq<Completion>)
      requires analysed + pending == returned && pending != []
      ensures analysed + [pending[0]] + pending[1..] == returned
    {
    }

    /** analyzeArrival: the next completion, in the order in which they were queued. */
    method AnalyzeArrival() returns (ifd: nat, c: Completion)
      requires Valid() && Pending() != []
      modifies this`queue, this`current, this`index, this`analysed
      ensures Valid()
      ensures c == old(Pending()[0]) && ifd == Target(c)
      ensures c.newConnection ==> ifd == c.listenFd
      ensures !c.newConnection ==> ifd == if c.packet || c.other then c.userData else 0
      ensures analysed == old(analysed) + [c] && Pending() == old(Pending())[1..]
    {
      hide Tidy, Queued, Gather, ToCome, Open, ListOf;
      ghost var pending := Pending();
      Accounted(analysed, pending, returned);
      if current == None {
        TakeRing(index, queue, rings);
        var r := queue[0];
        queue := queue[1..];
        current, index := Some(r), 0;
      }
      TakeCompletion(current.value, index, queue, rings);
      var list := rings[current.value].list;
      c := list[index];
      ifd := if c.newConnection then c.listenFd else if c.packet then c.userData else if c.other then c.userData else 0;
      index := index + 1;
      if index == |list| {
        index, current := 0, None;
      }
      analysed := analysed + [c];
    }
  }

  function AllRounds(order: seq<nat>, rounds: seq<Results>): seq<Completion> {
    if rounds == [] then [] else AllRounds(order, rounds[..|rounds| - 1]) + Round(order, rounds[|rounds| - 1])
  }

  /** What a ring returned in these rounds. */
  function ListsOf(rounds: seq<Results>, r: nat): (lists: seq<seq<Completion>>)
    ensures |lists| == |rounds| && forall i | 0 <= i < |rounds| :: lists[i] == ResultOf(rounds[i], r)
  {
    seq(|rounds|, i requires 0 <= i < |rounds| => ResultOf(rounds[i], r))
  }

  /** Each ring has logged what it returned in these rounds. */
  ghost predicate Logged(order: seq<nat>, logs: Logs, rounds: seq<Results>) {
    forall r | r in order :: r in logs && logs[r].lists == ListsOf(rounds, r)
  }

  lemma LoggedNext(order: seq<nat>, before: Logs, logs: Logs, rounds: seq<Results>,
                   round: Results)
    requires Logged(order, before, rounds) && Polled(order, |order|, before, logs, round)
    ensures Logged(order, logs, rounds + [round])
  {
    forall r | r in order
      ensures r in logs && logs[r].lists == ListsOf(rounds + [round], r)
    {
      var i :| 0 <= i < |order| && order[i] == r;
      assert logs[order[i]].lists == before[order[i]].lists + [ResultOf(round, order[i])];
    }
  }

  /** Every run of polls, each analysed to its end before the next: exactly the completions that the
      rings returned are analysed, each once and in order, and nothing is left.  Every ring has logged
      the rounds, and so gave back the packets of each before the next. */
  method Run(h: IoSocketxtreme, rounds: seq<Results>) returns (targets: seq<nat>)
    requires h.Valid() && h.queue == [] && h.current == None && h.returned == [] && Logged(h.order, h.logs, [])
    modifies h
    ensures h.Valid() && h.queue == [] && h.current == None
    ensures h.analysed == AllRounds(h.order, rounds) && Logged(h.order, h.logs, rounds)
    ensures forall r | r in h.order :: Orderly(h.logs[r].calls, ListsOf(rounds, r), h.rings[r])
    ensures forall r | r in h.order :: GivesBack(h.logs[r].calls, ListsOf(rounds, r))
    ensures |targets| == |h.analysed| && forall i | 0 <= i < |targets| :: targets[i] == Target(h.analysed[i])
  {
    hide Tidy, Logged, Polled, Round, AllRounds, GivesBack, Orderly, NonEmpty, RingsAfter, ToCome, Queued;
    targets := [];
    assert rounds[..0] == [];
    NoRounds(h);
    for k := 0 to |rounds|
      invariant h.Valid() && h.queue == [] && h.current == None
      invariant h.analysed == AllRounds(h.order, rounds[..k]) && Logged(h.order, h.logs, rounds[..k])
      invariant |targets| == |h.analysed| && forall i | 0 <= i < |targets| :: targets[i] == Target(h.analysed[i])
    {
      assert rounds[..k + 1] == rounds[..k] + [rounds[k]];
      ghost var before := h.logs;
      var numReady := h.WaitArrival(rounds[k]);
      LoggedNext(h.order, before, h.logs, rounds[..k], rounds[k]);
      AllRoundsNext(h.order, rounds[..k], rounds[k]);
      var more := Drain(h, numReady);
      targets := targets + more;
    }
    assert rounds[..|rounds|] == rounds;
    InOrder(h, rounds);
  }

  lemma NoRounds(h: IoSocketxtreme)
    requires h.Valid() && h.queue == [] && h.current == None && h.returned == []
    ensures h.analysed == [] == AllRounds(h.order, [])
  {
  }

  lemma AllRoundsNext(order: seq<nat>, rounds: seq<Results>, round: Results)
    ensures AllRounds(order, rounds + [round]) == AllRounds(order, rounds) + Round(order, round)
  {
    assert (rounds + [round])[..|rounds|] == rounds;
  }

  lemma InOrder(h: IoSocketxtreme, rounds: seq<Results>)
    requires h.Valid() && Logged(h.order, h.logs, rounds)
    ensures forall r | r in h.order :: r in h.rings && Orderly(h.logs[r].calls, ListsOf(rounds, r), h.rings[r])
    ensures forall r | r in h.order :: GivesBack(h.logs[r].calls, ListsOf(rounds, r))
  {
    hide Orderly, GivesBack;
    forall r | r in h.order
      ensures r in h.rings && Orderly(h.logs[r].calls, ListsOf(rounds, r), h.rings[r])
      ensures GivesBack(h.logs[r].calls, ListsOf(rounds, r))
    {
      assert r in ToSet(h.order);
      OrderlyGivesBack(h.logs[r].calls, h.logs[r].lists, h.rings[r]);
    }
  }

  /** Analyses all that is to come. */
  method Drain(h: IoSocketxtreme, numReady: nat) returns (targets: seq<nat>)
    requires h.Valid() && |h.Pending()| == numReady
    modifies h`queue, h`current, h`index, h`analysed
    ensures h.Valid() && h.queue == [] && h.current == None && h.analysed == h.returned
    ensures |targets| == numReady && |h.analysed| == |old(h.analysed)| + numReady
    ensures forall i | 0 <= i < numReady :: targets[i] == Target(h.analysed[|old(h.analysed)| + i])
    ensures h.analysed[..|old(h.analysed)|] == old(h.analysed)
  {
    hide Tidy;
    targets := [];
    for i := 0 to numReady
      invariant h.Valid() && |h.Pending()| == numReady - i
      invariant |targets| == i && |h.analysed| == |old(h.analysed)| + i
      invariant forall j | 0 <= j < i :: targets[j] == Target(h.analysed[|old(h.analysed)| + j])
      invariant h.analysed[..|old(h.analysed)|] == old(h.analysed)
    {
      var ifd, c := h.AnalyzeArrival();
      targets := targets + [ifd];
    }
    NothingPending(h);
  }

  lemma NothingPending(h: IoSocketxtreme)
    requires h.Valid() && h.Pending() == []
    ensures h.queue == [] && h.current == None && h.analysed == h.returned
  {
  }
}
