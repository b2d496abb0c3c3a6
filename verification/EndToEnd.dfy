// A client and a server over a stream socket, end to end.
module EndToEnd {
  import opened Messages
  import opened Framing
  import opened MessageParser
  import opened InputHandlers
  import opened Arith
  import opened Options
  import opened Sender
  import opened Server
  import Packet
  import GapDetector

  // --- sending ---

  /** One call of client_send_packet: the request's length, how the socket behaves, and the time. */
  datatype Try = Try(length: nat, script: seq<Outcome>, time: int)

  /** The times come from a clock, and the socket does nothing but take bytes and block. */
  ghost predicate Sensible(tries: seq<Try>, maxLen: nat) {
    && (forall i | 0 <= i < |tries| ::
          EFFECTIVE_SIZE <= tries[i].length <= maxLen && Clean(tries[i].script) && 0 < tries[i].time)
    && (forall i, j | 0 <= i < j < |tries| :: tries[i].time <= tries[j].time)
  }

  /** The tries whose first call of sendto() would have blocked are skipped. */
  predicate Blocked(t: Try) {
    t.script != [] && t.script[0] == Again
  }

  /** The lengths of the others. */
  function Due(tries: seq<Try>): seq<nat> {
    if tries == [] then []
    else
      var t := tries[|tries| - 1];
      Due(tries[..|tries| - 1]) + if Blocked(t) then [] else [t.length]
  }

  function Lengths(msgs: seq<seq<byte>>): (r: seq<nat>)
    ensures |r| == |msgs| && forall k | 0 <= k < |r| :: r[k] == |msgs[k]|
  {
    seq(|msgs|, k requires 0 <= k < |msgs| => |msgs[k]|)
  }

  lemma DueNext(tries: seq<Try>, i: nat)
    requires i < |tries|
    ensures Due(tries[..i + 1]) == Due(tries[..i]) + if Blocked(tries[i]) then [] else [tries[i].length]
  {
    assert tries[..i + 1][..i] == tries[..i];
  }

  /** Sends a request for every try.  Whatever the partial sends and blocked calls, the stream is the
      numbered requests of the tries that were not skipped. */
  method SendAll(c: Client, tries: seq<Try>)
    requires c.Valid() && c.Streaming() && c.sent == [] && Sensible(tries, c.msg.Length)
    requires |tries| <= Limit(c.mode, c.table.maxSequenceNo)
    requires tries != [] ==> c.now <= tries[0].time
    modifies c, c.msg, c.table, c.table.times
    ensures c.Valid() && c.Streaming()
    ensures Lengths(c.sent) == Due(tries) && c.skipCount == old(c.skipCount) + |tries| - |c.sent|
    ensures |c.sent| <= |tries|
  {
    hide Streams, Books, Packet.PacketTimes.Valid, FromLE, At;
    for i := 0 to |tries|
      invariant c.Valid() && c.Streaming() && |c.sent| <= i
      invariant i < |tries| ==> c.now <= tries[i].time
      invariant Lengths(c.sent) == Due(tries[..i]) && c.skipCount == old(c.skipCount) + i - |c.sent|
    {
      DueNext(tries, i);
      c.StreamPacket(tries[i].length, tries[i].script, tries[i].time);
    }
    assert tries[..|tries|] == tries;
  }

  // --- what arrives of it ---

  function Swapped(msgs: seq<seq<byte>>): (r: seq<seq<byte>>)
    requires forall k | 0 <= k < |msgs| :: |msgs[k]| >= EFFECTIVE_SIZE
    ensures |r| == |msgs| && forall k | 0 <= k < |r| :: r[k] == SwapHeader(msgs[k])
  {
    seq(|msgs|, k requires 0 <= k < |msgs| => SwapHeader(msgs[k]))
  }

  function AsEvents(msgs: seq<seq<byte>>): (r: seq<Event>)
    ensures |r| == |msgs| && forall k | 0 <= k < |r| :: r[k] == Whole(msgs[k])
  {
    seq(|msgs|, k requires 0 <= k < |msgs| => Whole(msgs[k]))
  }

  predicate WellSized(msgs: seq<seq<byte>>, max: nat) {
    forall k | 0 <= k < |msgs| :: EFFECTIVE_SIZE <= |msgs[k]| <= max && Length(msgs[k]) == |msgs[k]|
  }

  lemma {:induction false} WireIsConcat(msgs: seq<seq<byte>>)
    requires forall k | 0 <= k < |msgs| :: |msgs[k]| >= EFFECTIVE_SIZE
    ensures OnWire(msgs) == Concat(Swapped(msgs))
  {
    hide SwapHeader;
    if msgs != [] {
      var init, last := msgs[..|msgs| - 1], msgs[|msgs| - 1];
      WireIsConcat(init);
      assert Swapped(msgs) == Swapped(init) + [SwapHeader(last)];
      ConcatAppend(Swapped(init), [SwapHeader(last)]);
      ConcatOne(SwapHeader(last));
    }
  }

  lemma {:induction false} EventAt(msgs: seq<seq<byte>>, k: nat)
    requires k < |msgs|
    ensures Framing.Events(msgs)[k] == Whole(Converted(msgs[k]))
  {
    if k > 0 {
      EventAt(msgs[1..], k - 1);
    }
  }

  lemma EventsOfWire(msgs: seq<seq<byte>>)
    requires forall k | 0 <= k < |msgs| :: |msgs[k]| >= EFFECTIVE_SIZE
    ensures Framing.Events(Swapped(msgs)) == AsEvents(msgs)
  {
    hide SwapHeader, Framing.Events;
    forall k | 0 <= k < |msgs|
      ensures Framing.Events(Swapped(msgs))[k] == Whole(msgs[k])
    {
      EventAt(Swapped(msgs), k);
      SwapTwice(msgs[k]);
    }
  }

  /** A stream of messages is handed over as exactly these messages, unchanged, and nothing is left. */
  lemma StreamIsServed(msgs: seq<seq<byte>>, max: nat, accept: Verdicts)
    requires WellSized(msgs, max) && AcceptsAll(accept)
    ensures NoRunt(OnWire(msgs), max)
    ensures Serve(OnWire(msgs), max, 0, accept) == Served(AsEvents(msgs), true, [])
  {
    hide SwapHeader, Length, SeqNo, Serve, NoRunt, OnWire;
    WireIsConcat(msgs);
    EventsOfWire(msgs);
    forall m | m in Swapped(msgs)
      ensures WellFormed(m, max)
    {
      var k :| 0 <= k < |msgs| && m == SwapHeader(msgs[k]);
      SwapTwice(msgs[k]);
    }
    ServeFraming(Swapped(msgs), [], max, 0, accept);
    assert Concat(Swapped(msgs)) + [] == Concat(Swapped(msgs));
  }

  /** And of the part that has arrived so far, a first part of the messages. */
  lemma PrefixIsServed(msgs: seq<seq<byte>>, taken: nat, max: nat, accept: Verdicts)
    requires WellSized(msgs, max) && AcceptsAll(accept) && taken <= |OnWire(msgs)|
    ensures var r := Serve(OnWire(msgs)[..taken], max, 0, accept);
            && r.ok && |r.events| <= |msgs| && r.events == AsEvents(msgs[..|r.events|])
            && (taken == |OnWire(msgs)| ==> |r.events| == |msgs|)
  {
    hide Serve, NoRunt, OnWire;
    StreamIsServed(msgs, max, accept);
    var wire := OnWire(msgs);
    assert wire == wire[..taken] + wire[taken..];
    ServeAppend(wire[..taken], wire[taken..], max, 0, accept);
    if taken == |wire| {
      assert wire[..taken] == wire;
    }
  }

  // --- the server's books ---

  predicate Asks(n: nat, replyEvery: nat)
    requires replyEvery > 0
  {
    n % replyEvery == 0
  }

  /** How many of the first n requests ask for an answer. */
  function Asked(n: nat, replyEvery: nat): (r: nat)
    requires replyEvery > 0
    ensures r <= n
  {
    FloorAtMost(n, replyEvery);
    n / replyEvery
  }

  lemma AskedNext(n: nat, replyEvery: nat)
    requires replyEvery > 0
    ensures Asked(n + 1, replyEvery) == Asked(n, replyEvery) + if Asks(n + 1, replyEvery) then 1 else 0
    ensures replyEvery > 1 && Asks(n + 1, replyEvery) ==> !Asks(n, replyEvery) || n == 0
    ensures replyEvery == 1 ==> Asks(n, replyEvery) && Asks(n + 1, replyEvery)
    ensures replyEvery > 1 ==> !Asks(1, replyEvery)
    ensures Asks(0, replyEvery) && Asked(0, replyEvery) == 0
  {
    NextSlot(n, replyEvery);
    if replyEvery > 1 && n % replyEvery == 0 {
      NotNext(n, replyEvery);
    }
  }

  lemma NotNext(n: nat, d: nat)
    requires d > 1 && n % d == 0
    ensures (n + 1) % d != 0
  {
    FloorIs(n + 1, d, n / d);
  }

  /** The client's session after its first n requests reached a server.  A server that does not reply
      loses every pong request from the gap detector's sight. */
  function SessionAfter(n: nat, unseen: bool, replyEvery: nat): Option<GapDetector.Session>
    requires n < TWO_64 && replyEvery > 0
  {
    if n == 0 || (unseen && replyEvery == 1) then None
    else if !unseen then Some(GapDetector.Session(n, 0, true))
    else
      var last := if Asks(n, replyEvery) then n - 1 else n;
      Some(GapDetector.Session(last, Asked(last, replyEvery), true))
  }

  lemma SessionNext(n: nat, unseen: bool, replyEvery: nat)
    requires n + 1 < TWO_64 && replyEvery > 0
    ensures var s, t := SessionAfter(n, unseen, replyEvery), SessionAfter(n + 1, unseen, replyEvery);
            if unseen && Asks(n + 1, replyEvery) then t == s
            else t == Some(GapDetector.Step(s, GapDetector.Data(n + 1)))
  {
    hide Asks, Asked, GapDetector.CheckGaps;
    AskedNext(n, replyEvery);
    if n > 0 {
      AskedNext(n - 1, replyEvery);
    }
    var s := SessionAfter(n, unseen, replyEvery);
    GapDetector.CountsExactly(if s.Some? then s.value else GapDetector.Session(1, 0, true), n + 1);
  }

  /** The server handles the first n requests of a client it has not seen before, answering as the
      sockets allow. */
  method HandleAll<K>(server: Server<K>, client: K, events: seq<Event>, scripts: seq<seq<Outcome>>,
                      ghost mode: PongMode, ghost replyEvery: nat, ghost payload: seq<byte>, ghost msgs: seq<seq<byte>>)
    requires replyEvery > 0 && (mode.Always? ==> replyEvery == 1) && |events| < TWO_64
    requires events == AsEvents(msgs)
    requires forall k | 0 <= k < |msgs| :: IsRequest(msgs[k], k + 1, mode, replyEvery, payload)
    requires |scripts| >= |events| && forall k | 0 <= k < |scripts| :: Clean(scripts[k])
    requires client !in server.gaps.sessions
    modifies server, server.gaps
    ensures server.receiveCount == old(server.receiveCount) + |msgs|
    ensures server.SessionOf(client) == SessionAfter(|msgs|, server.dontReply && !mode.Never?, replyEvery)
    ensures server.gaps.sessions - {client} == old(server.gaps.sessions)
  {
    hide FromLE, SwapHeader, GapDetector.Step, SessionAfter, Transmit;
    ghost var unseen := server.dontReply && !mode.Never?;
    assert server.SessionOf(client) == SessionAfter(0, unseen, replyEvery) by {
      NoSession(unseen, replyEvery);
    }
    for k := 0 to |events|
      invariant server.receiveCount == old(server.receiveCount) + k
      invariant server.SessionOf(client) == SessionAfter(k, unseen, replyEvery)
      invariant server.gaps.sessions - {client} == old(server.gaps.sessions)
    {
      var m := events[k].bytes;
      assert IsRequest(msgs[k], k + 1, mode, replyEvery, payload);
      FlagByteMeans(m, Timed(k + 1, mode, replyEvery));
      TransmitMeans(scripts[k], |m|, |m|);
      SessionNext(k, unseen, replyEvery);
      var more := server.HandleMessage(client, m, scripts[k]);
      assert more;
    }
  }

  /** The server reads a stream in pieces of the given sizes, by either way of receiving. */
  method Receive(strategy: Strategy, stream: seq<byte>, cuts: seq<nat>, maxSize: nat, msgMax: nat)
    returns (events: seq<Event>, taken: nat)
    requires EFFECTIVE_SIZE <= maxSize && msgMax <= maxSize + 1
    requires NoRunt(stream, msgMax) && forall t | 0 <= t <= |stream| :: Serve(stream[..t], msgMax, 0, All).ok
    ensures taken <= |stream| && (|cuts| >= |stream| ==> taken == |stream|)
    ensures events == Serve(stream[..taken], msgMax, 0, All).events
  {
    hide NoRunt, Serve;
    var ok;
    if strategy.InPlace? {
      events, ok, taken := RunInPlace(stream, cuts, maxSize, msgMax, All, MakeServer);
    } else {
      var chunks, n := Cut(stream, cuts);
      assert stream == stream[..n] + stream[n..];
      NoRuntPrefix(stream[..n], stream[n..], msgMax);
      var used;
      events, ok, used := RunBuffered(chunks, maxSize, msgMax, All, MakeServer);
      ConcatPrefix(chunks, used);
      assert stream[..n][..|Concat(chunks[..used])|] == stream[..|Concat(chunks[..used])|];
      assert ok;
      assert chunks[..used] == chunks;
      taken := n;
    }
  }

  function All(k: nat): bool { true }

  lemma ConcatPrefix(chunks: seq<seq<byte>>, used: nat)
    requires used <= |chunks|
    ensures |Concat(chunks[..used])| <= |Concat(chunks)|
    ensures Concat(chunks[..used]) == Concat(chunks)[..|Concat(chunks[..used])|]
  {
    ConcatAppend(chunks[..used], chunks[used..]);
    assert chunks == chunks[..used] + chunks[used..];
  }

  method Cut(stream: seq<byte>, cuts: seq<nat>) returns (chunks: seq<seq<byte>>, n: nat)
    ensures n <= |stream| && Concat(chunks) == stream[..n] && (|cuts| >= |stream| ==> n == |stream|)
  {
    chunks, n := [], 0;
    for k := 0 to |cuts|
      invariant n <= |stream| && Concat(chunks) == stream[..n] && (n < |stream| ==> n >= k)
    {
      var m := Min(if cuts[k] == 0 then 1 else cuts[k], |stream| - n);
      ConcatAppend(chunks, [stream[n..n + m]]);
      ConcatOne(stream[n..n + m]);
      assert stream[..n] + stream[n..n + m] == stream[..n + m];
      chunks, n := chunks + [stream[n..n + m]], n + m;
    }
  }

  /** End to end: whatever the partial sends and blocked calls on the client's side, and whatever the
      pieces in which the stream arrives, the server has handled a first part of the requests that
      were sent, and all of them once the stream has arrived. */
  method OverStream<K>(c: Client, tries: seq<Try>, strategy: Strategy, cuts: seq<nat>, maxSize: nat, msgMax: nat,
                       server: Server<K>, key: K, scripts: seq<seq<Outcome>>)
    returns (events: seq<Event>)
    requires c.Valid() && c.Streaming() && c.sent == [] && Sensible(tries, c.msg.Length)
    requires |tries| <= Limit(c.mode, c.table.maxSequenceNo) && |scripts| >= |tries|
    requires tries != [] ==> c.now <= tries[0].time
    requires c.msg.Length <= msgMax <= maxSize + 1 && EFFECTIVE_SIZE <= maxSize
    requires forall k | 0 <= k < |scripts| :: Clean(scripts[k])
    requires key !in server.gaps.sessions
    modifies c, c.msg, c.table, c.table.times, server, server.gaps
    ensures c.Valid() && c.Streaming() && Lengths(c.sent) == Due(tries)
    ensures |events| <= |c.sent| < TWO_64 && events == AsEvents(c.sent[..|events|])
    ensures |cuts| >= |c.wire| ==> |events| == |c.sent|
    ensures server.receiveCount == old(server.receiveCount) + |events|
    ensures server.SessionOf(key) == SessionAfter(|events|, server.dontReply && !c.mode.Never?, c.table.replyEvery)
    ensures server.gaps.sessions - {key} == old(server.gaps.sessions)
  {
    hide Streams, Books, Packet.PacketTimes.Valid, FromLE, At, SwapHeader, Serve, NoRunt, OnWire, SessionAfter, Clean,
         IsRequest;
    SendAll(c, tries);
    c.InBooks();
    StreamSized(c.sent, c.wire, c.mode, c.table.replyEvery, c.payload, msgMax);
    StreamIsServed(c.sent, msgMax, All);
    forall t | 0 <= t <= |c.wire|
      ensures Serve(c.wire[..t], msgMax, 0, All).ok
    {
      PrefixIsServed(c.sent, t, msgMax, All);
    }
    var taken;
    events, taken := Receive(strategy, c.wire, cuts, maxSize, msgMax);
    PrefixIsServed(c.sent, taken, msgMax, All);
    HandleAll(server, key, events, scripts, c.mode, c.table.replyEvery, c.payload, c.sent[..|events|]);
  }

  lemma StreamSized(sent: seq<seq<byte>>, wire: seq<byte>, mode: PongMode, replyEvery: nat, payload: seq<byte>,
                    max: nat)
    requires replyEvery > 0 && Streams(sent, wire, mode, replyEvery, payload) && EFFECTIVE_SIZE + |payload| <= max
    ensures WellSized(sent, max) && wire == OnWire(sent) && AcceptsAll(All)
    ensures forall k | 0 <= k < |sent| :: IsRequest(sent[k], k + 1, mode, replyEvery, payload)
  {
  }

  lemma NoSession(unseen: bool, replyEvery: nat)
    requires replyEvery > 0
    ensures SessionAfter(0, unseen, replyEvery) == None
  {
  }

  /** So the total of gaps stays 0 for ever if the server replies; if it does not, only until the
      first pong request is followed by another request. */
  lemma NoGapsExactly(n: nat, unseen: bool, replyEvery: nat)
    requires n < TWO_64 && replyEvery > 0
    ensures var s := SessionAfter(n, unseen, replyEvery);
            (s.Some? && s.value.totalDrops > 0) <==> unseen && 1 < replyEvery < n
  {
    if unseen && 1 < replyEvery && n > 0 {
      var last := if Asks(n, replyEvery) then n - 1 else n;
      FloorIs(last, replyEvery, 0);
      if n == replyEvery {
        FloorIs(n, n, 1);
      }
    }
  }
}
