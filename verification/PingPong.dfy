// The way back: the client's treatment of a reply (src/client.h) and the data integrity check
// (src/switches.h), and whole ping-pong runs over stream sockets.
module PingPong {
  import opened Arith
  import opened Messages
  import opened Framing
  import opened MessageParser
  import opened InputHandlers
  import opened Packet
  import opened Sender
  import opened Server
  import opened EndToEnd

  // --- the check ---

  /** check_data_integrity: mark the reply as the client's, then compare as many bytes as the request
      has, the reply standing at the start of memory. */
  predicate Intact(request: seq<byte>, memory: seq<byte>)
    requires EFFECTIVE_SIZE <= |memory| && EFFECTIVE_SIZE <= |request|
    requires Length(request) <= |request| && Length(request) <= |memory|
  {
    SetFlag(memory, Flag.Client)[..Length(request)] == request[..Length(request)]
  }

  /** Two flag bytes that differ at most in the client flag, which the request has. */
  predicate SameButClient(reply: byte, request: byte) {
    && HasBit(request, Flag.Client)
    && (HasBit(reply, Pong) <==> HasBit(request, Pong)) && (HasBit(reply, Warmup) <==> HasBit(request, Warmup))
    && reply - reply % 8 == request - request % 8
  }

  lemma ClientBitOnly(reply: byte, request: byte)
    ensures SetBit(reply, Flag.Client) == request <==> SameButClient(reply, request)
  {
  }

  /** The check accepts exactly the replies that agree with the request in every byte up to its length,
      except that the client flag may be missing. */
  lemma IntactExactly(request: seq<byte>, memory: seq<byte>)
    requires EFFECTIVE_SIZE <= |memory| && EFFECTIVE_SIZE <= |request|
    requires Length(request) <= |request| && Length(request) <= |memory|
    ensures Intact(request, memory) <==>
              forall i | 0 <= i < Length(request) ::
                if i == 8 then SameButClient(memory[8], request[8]) else memory[i] == request[i]
  {
    hide Length, SetBit, HasBit, SameButClient;
    ClientBitOnly(memory[8], request[8]);
    var t, len := SetFlag(memory, Flag.Client), Length(request);
    assert t[8] == SetBit(memory[8], Flag.Client);
    forall i | 0 <= i < len
      ensures t[..len][i] == request[..len][i] <==>
                if i == 8 then SameButClient(memory[8], request[8]) else memory[i] == request[i]
    {
    }
    assert Intact(request, memory) <==> forall i | 0 <= i < len :: t[..len][i] == request[..len][i];
  }

  /** In particular a reply with any other byte of the payload changed is refused. */
  lemma TamperedIsRefused(request: seq<byte>, memory: seq<byte>, i: nat, x: byte)
    requires EFFECTIVE_SIZE <= |request| && Length(request) <= |request| && Length(request) <= |memory|
    requires EFFECTIVE_SIZE <= i < Length(request) && x != request[i]
    ensures !Intact(request, memory[i := x])
  {
    hide Length;
    IntactExactly(request, memory[i := x]);
    assert memory[i := x][i] != request[i];
  }

  /** A number stored in a header determines its bytes. */
  lemma SameNumber(a: seq<byte>, b: seq<byte>)
    requires |a| == |b| && FromLE(a) == FromLE(b)
    ensures a == b
  {
    LoadStore(a);
    LoadStore(b);
  }

  /** Two messages are equal if their fields and payloads are. */
  lemma SameMessage(a: seq<byte>, b: seq<byte>)
    requires EFFECTIVE_SIZE <= |a| == |b|
    requires SeqNo(a) == SeqNo(b) && a[8] == b[8] && a[9] == b[9] && Length(a) == Length(b) && a[14..] == b[14..]
    ensures a == b
  {
    SameNumber(a[0..8], b[0..8]);
    SameNumber(a[10..14], b[10..14]);
    assert a == a[0..8] + [a[8], a[9]] + a[10..14] + a[14..];
    assert b == b[0..8] + [b[8], b[9]] + b[10..14] + b[14..];
  }

  lemma PrefixFields(a: seq<byte>, n: nat)
    requires EFFECTIVE_SIZE <= n <= |a|
    ensures SeqNo(a[..n]) == SeqNo(a) && Length(a[..n]) == Length(a)
    ensures a[..n][8] == a[8] && a[..n][9] == a[9] && a[..n][14..] == a[14..n]
  {
    assert a[..n][0..8] == a[0..8] && a[..n][10..14] == a[10..14];
  }

  /** The echo of a request, marked as the client's again, is the request. */
  lemma EchoRestores(m: seq<byte>, rest: seq<byte>)
    requires |m| >= EFFECTIVE_SIZE && HasFlag(m, Flag.Client)
    ensures SetFlag(Echo(m, false) + rest, Flag.Client) == m + rest
  {
    ClearThenSet(m, Flag.Client);
    var e := Echo(m, false);
    assert (e + rest)[8] == e[8];
    assert SetFlag(e + rest, Flag.Client) == SetFlag(e, Flag.Client) + rest;
  }

  /** What a client's buffer holds while it waits, as Client.Ready says. */
  predicate Current(request: seq<byte>, mode: PongMode, payload: seq<byte>) {
    && |request| == EFFECTIVE_SIZE + |payload| && EFFECTIVE_SIZE <= Length(request) <= |request|
    && request[8] == FlagByte(mode.Always?) && request[9] == 0 && request[EFFECTIVE_SIZE..] == payload
  }

  /** An honest echo of request n passes the check exactly if the buffer still holds request n, in the
      same length, and the mode leaves the pong flag set: PongModeNormal clears it after sending, so
      there every honest echo is refused. */
  lemma IntegrityExactly(m: seq<byte>, n: nat, replyEvery: nat, request: seq<byte>, mode: PongMode, payload: seq<byte>,
                         rest: seq<byte>)
    requires replyEvery > 0 && IsRequest(m, n, mode, replyEvery, payload) && HasFlag(m, Pong)
    requires Current(request, mode, payload)
    requires Length(request) <= |m + rest|
    ensures Intact(request, Echo(m, false) + rest) <==>
              mode.Always? && SeqNo(request) == n && Length(request) == |m|
  {
    hide FromLE, SetFlag, ClearFlag;
    FlagByteMeans(m, Timed(n, mode, replyEvery));
    EchoRestores(m, rest);
    var len := Length(request);
    var back := (m + rest)[..len];
    assert Intact(request, Echo(m, false) + rest) == (back == request[..len]);
    PrefixFields(m + rest, len);
    PrefixFields(m + rest, |m|);
    assert (m + rest)[..|m|] == m;
    PrefixFields(request, len);
    if mode.Always? && SeqNo(request) == n && len == |m| {
      assert back == m;
      assert request[..len][14..] == payload[..len - 14] == m[14..];
      SameMessage(m, request[..len]);
    }
  }

  // --- one reply ---

  /** What becomes of a reply with a valid header. */
  datatype Verdict = TooHigh | Ignored | Recorded(intact: bool)

  /** handle_message of the client. */
  method HandleReply(c: Client, memory: seq<byte>, time: int, server: nat) returns (v: Verdict)
    requires c.Valid() && !c.mode.Never? && server < c.table.blockSize - 1 && time != 0
    requires EFFECTIVE_SIZE <= |memory| && Length(c.request) <= |memory|
    modifies c.table.times, c.table.duplicates, c.table`tx, c.table`rx, c.table`receiveCount, c.table`replies
    ensures c.Valid() && c.table.tx == old(c.table.tx)
    ensures v == if SeqNo(memory) > SeqNo(c.request) then TooHigh
                 else if HasFlag(memory, Flag.Client) || HasFlag(memory, Flag.Warmup) then Ignored
                 else Recorded(Intact(c.request, memory))
    ensures !v.Recorded? ==> c.table.rx == old(c.table.rx) && c.table.receiveCount == old(c.table.receiveCount)
    ensures v.Recorded? ==>
              && SeqNo(memory) <= c.table.maxSequenceNo
              && var s := c.table.Slot(SeqNo(memory));
                 var old_rx := old(c.table.rx);
                 if old_rx[s][server] == 0 then
                   && c.table.rx == old_rx[s := old_rx[s][server := time]]
                   && c.table.receiveCount == old(c.table.receiveCount) + 1
                 else c.table.rx == old_rx && c.table.receiveCount == old(c.table.receiveCount)
  {
    hide FromLE, SetFlag, PacketTimes.Holds, Timeline, NonZeroCells, Sum;
    c.InBooks();
    c.MsgIs();
    var number := SeqNo(memory);
    if number > c.GetSequenceCounter() {
      return TooHigh;
    }
    if HasFlag(memory, Flag.Client) || HasFlag(memory, Flag.Warmup) {
      return Ignored;
    }
    c.table.SetRxTime(number, time, server, false);
    v := Recorded(Intact(c.msg[..], memory));
  }

  // --- whole runs ---

  lemma PrefixOk(a: seq<byte>, b: seq<byte>, max: nat, accept: Verdicts)
    requires NoRunt(a + b, max) && Serve(a + b, max, 0, accept).ok
    ensures NoRunt(a, max) && Serve(a, max, 0, accept).ok
  {
    hide Serve, NoRunt;
    NoRuntPrefix(a, b, max);
    ServeAppend(a, b, max, 0, accept);
  }

  /** The next read returns at least one and at most k of the bytes. */
  method DeliverSome(r: Receiver, bytes: seq<byte>, k: nat, ghost before: seq<byte>) returns (n: nat)
    requires HasServed(r, before) && 0 < k && bytes != []
    requires NoRunt(before + bytes, r.msgMax) && Serve(before + bytes, r.msgMax, 0, r.accept).ok
    modifies r, r.buf
    ensures 0 < n <= |bytes| && HasServed(r, before + bytes[..n])
  {
    hide Serve, NoRunt, Receiver.Valid;
    n := Min(k, |bytes|);
    if r.strategy.InPlace? {
      r.InPlaceBound();
      n := Min(n, r.curSize);
    }
    assert before + bytes == before + bytes[..n] + bytes[n..];
    PrefixOk(before + bytes[..n], bytes[n..], r.msgMax, r.accept);
    var ok;
    if r.strategy.InPlace? {
      ok := ReceiveInPlace(r, bytes[..n], before);
    } else {
      ok := ReceiveBuffered(r, bytes[..n], before);
    }
  }

  /** More bytes of a stream arrive in pieces. */
  method Deliver(r: Receiver, bytes: seq<byte>, cuts: seq<nat>, ghost before: seq<byte>)
    requires HasServed(r, before) && NoRunt(before + bytes, r.msgMax) && Serve(before + bytes, r.msgMax, 0, r.accept).ok
    modifies r, r.buf
    ensures HasServed(r, before + bytes)
  {
    hide Serve, NoRunt, HasServed;
    var taken, k := 0, 0;
    assert before + bytes[..0] == before;
    while taken < |bytes|
      invariant taken <= |bytes|
      invariant HasServed(r, before + bytes[..taken])
    {
      Pieces(before, bytes, taken);
      var n := DeliverSome(r, bytes[taken..], if k < |cuts| && cuts[k] > 0 then cuts[k] else |bytes|,
                           before + bytes[..taken]);
      assert before + bytes[..taken] + bytes[taken..][..n] == before + bytes[..taken + n];
      taken, k := taken + n, k + 1;
    }
    assert bytes[..taken] == bytes;
  }

  lemma Pieces(before: seq<byte>, bytes: seq<byte>, taken: nat)
    requires taken <= |bytes|
    ensures before + bytes == before + bytes[..taken] + bytes[taken..]
  {
    assert bytes == bytes[..taken] + bytes[taken..];
  }

  /** A round: the request's length, how the two sockets behave, in which pieces request and reply
      arrive, and the clock when the request is sent and when the reply arrives. */
  datatype Round = Round(length: nat, script: seq<Outcome>, sendTime: int, requestCuts: seq<nat>,
                         replyScript: seq<Outcome>, replyCuts: seq<nat>, receiveTime: int)

  predicate Through(script: seq<Outcome>) {
    Clean(script) && (script != [] ==> script[0] != Again)
  }

  function Echoes(sent: seq<seq<byte>>): (r: seq<seq<byte>>)
    requires forall k | 0 <= k < |sent| :: |sent[k]| >= EFFECTIVE_SIZE
    ensures |r| == |sent| && forall k | 0 <= k < |r| :: r[k] == Echo(sent[k], false)
  {
    seq(|sent|, k requires 0 <= k < |sent| => Echo(sent[k], false))
  }

  /** A receiver between two messages. */
  ghost predicate Idle(r: Receiver)
    reads r
  {
    && r.Sized() && r.pending == [] && r.curOffset == 0 && r.curSize == r.maxSize && r.curPos <= r.curArr.Length
    && (r.strategy.InPlace? ==> r.curArr == r.buf && r.curPos == 0)
  }

  lemma IdleExactly(r: Receiver)
    ensures Idle(r) <==> r.Valid() && r.pending == []
  {
  }

  /** A receiver that has got the given messages. */
  ghost predicate HasGot(r: Receiver, msgs: seq<seq<byte>>)
    reads r
  {
    && (forall k | 0 <= k < |msgs| :: |msgs[k]| >= EFFECTIVE_SIZE)
    && Idle(r) && AcceptsAll(r.accept) && Serve(OnWire(msgs), r.msgMax, 0, r.accept) == Served(r.log, true, [])
  }

  /** One more message arrives, in pieces. */
  method DeliverMessage(r: Receiver, bytes: seq<byte>, cuts: seq<nat>, ghost msgs: seq<seq<byte>>, ghost m: seq<byte>)
    returns (got: seq<byte>)
    requires HasGot(r, msgs) && WellSized(msgs + [m], r.msgMax) && |m| >= EFFECTIVE_SIZE && bytes == SwapHeader(m)
    modifies r, r.buf
    ensures HasGot(r, msgs + [m]) && got == m
  {
    hide Serve, NoRunt, OnWire, SwapHeader, FromLE, Idle, Receiver.Valid;
    OnWireNext(msgs, m);
    StreamIsServed(msgs + [m], r.msgMax, r.accept);
    IdleExactly(r);
    Deliver(r, bytes, cuts, OnWire(msgs));
    IdleExactly(r);
    got := r.log[|r.log| - 1].bytes;
  }

  /** The requests sent have all arrived at the server and all their echoes at the client. */
  ghost predicate InStep(sent: seq<seq<byte>>, sr: Receiver, cr: Receiver)
    reads sr, cr
  {
    sr != cr && sr.buf != cr.buf && HasGot(sr, sent) && HasGot(cr, Echoes(sent))
  }

  lemma EchoSized(sent: seq<seq<byte>>, wire: seq<byte>, mode: PongMode, replyEvery: nat, payload: seq<byte>, max: nat)
    requires replyEvery > 0 && Streams(sent, wire, mode, replyEvery, payload) && EFFECTIVE_SIZE + |payload| <= max
    ensures WellSized(sent, max) && WellSized(Echoes(sent), max)
  {
    hide FromLE;
    StreamSized(sent, wire, mode, replyEvery, payload, max);
    forall k | 0 <= k < |sent|
      ensures Length(Echoes(sent)[k]) == Length(sent[k])
    {
      Client.FlagKeeps(sent[k], Flag.Client);
    }
  }

  /** A request goes out, whole. */
  method SendRequest(c: Client, round: Round) returns (bytes: seq<byte>, ghost m: seq<byte>)
    requires c.Valid() && c.Streaming()
    requires SeqNo(c.request) < Limit(c.mode, c.table.maxSequenceNo) && EFFECTIVE_SIZE <= round.length <= c.msg.Length
    requires Through(round.script) && c.now <= round.sendTime && 0 < round.sendTime
    modifies c, c.msg, c.table.times, c.table`tx, c.table`rx
    ensures c.Valid() && c.Streaming() && c.now == round.sendTime && c.table.rx == old(c.table.rx)
    ensures c.sent == old(c.sent) + [m] && |m| == round.length == Length(c.request) && bytes == SwapHeader(m)
  {
    hide FromLE, SwapHeader, OnWire, Streams, Books, Clean, PacketTimes.Valid, At;
    StreamWire(c);
    var before := c.wire;
    c.StreamPacket(round.length, round.script, round.sendTime);
    m := c.sent[|c.sent| - 1];
    assert c.sent == old(c.sent) + [m];
    OnWireNext(old(c.sent), m);
    StreamWire(c);
    assert c.wire == before + SwapHeader(m);
    bytes := c.wire[|before|..];
  }

  /** The server echoes a request, and the echo goes out whole. */
  method Answer<K>(server: Server<K>, key: K, m: seq<byte>, script: seq<Outcome>) returns (bytes: seq<byte>)
    requires EFFECTIVE_SIZE <= |m| && Length(m) == |m| && m[8] == FlagByte(true)
    requires !server.bridge && !server.dontReply && Through(script)
    modifies server, server.gaps
    ensures bytes == SwapHeader(Echo(m, false))
    ensures server.receiveCount == old(server.receiveCount) + 1
  {
    hide FromLE, SwapHeader, Clean, GapDetector.Step;
    FlagByteMeans(m, true);
    TransmitMeans(script, |m|, |m|);
    var before := server.wire;
    var more := server.HandleMessage(key, m, script);
    bytes := server.wire[|before|..];
  }

  lemma StreamWire(c: Client)
    requires c.Streaming()
    ensures forall k | 0 <= k < |c.sent| :: |c.sent[k]| >= EFFECTIVE_SIZE
    ensures c.wire == OnWire(c.sent)
  {
  }

  /** A request travels to the server and its echo back, both in pieces. */
  method Exchange<K>(server: Server<K>, key: K, sr: Receiver, cr: Receiver, bytes: seq<byte>, round: Round,
                     ghost sent: seq<seq<byte>>, ghost m: seq<byte>)
    returns (memory: seq<byte>)
    requires InStep(sent, sr, cr) && !server.bridge && !server.dontReply && Through(round.replyScript)
    requires WellSized(sent + [m], sr.msgMax) && WellSized(Echoes(sent + [m]), cr.msgMax)
    requires |m| >= EFFECTIVE_SIZE && Length(m) == |m| && m[8] == FlagByte(true) && bytes == SwapHeader(m)
    modifies server, server.gaps, sr, sr.buf, cr, cr.buf
    ensures InStep(sent + [m], sr, cr) && memory == Echo(m, false)
    ensures server.receiveCount == old(server.receiveCount) + 1
  {
    hide FromLE, SwapHeader, OnWire, Clean, HasServed;
    var request := DeliverMessage(sr, bytes, round.requestCuts, sent, m);
    var reply := Answer(server, key, request, round.replyScript);
    assert Echoes(sent + [m]) == Echoes(sent) + [Echo(m, false)];
    memory := DeliverMessage(cr, reply, round.replyCuts, Echoes(sent), Echo(m, false));
  }

  /** No reply is recorded for the requests to come. */
  ghost predicate Unanswered(rx: seq<seq<int>>, n: nat) {
    forall s | n < s < |rx| :: rx[s] != [] && rx[s][0] == 0
  }

  ghost predicate Playable(round: Round, maxLen: nat) {
    && EFFECTIVE_SIZE <= round.length <= maxLen && Through(round.script) && Through(round.replyScript)
    && 0 < round.sendTime <= round.receiveTime
  }

  /** The reply of a round is recorded, and found intact. */
  method PlayRound<K>(c: Client, server: Server<K>, key: K, sr: Receiver, cr: Receiver, round: Round)
    returns (v: Verdict)
    requires c.Valid() && c.Streaming() && c.mode.Always? && InStep(c.sent, sr, cr)
    requires c.msg != sr.buf && c.msg != cr.buf && c.msg.Length <= sr.msgMax && c.msg.Length <= cr.msgMax
    requires !server.bridge && !server.dontReply
    requires SeqNo(c.request) < c.table.maxSequenceNo && Playable(round, c.msg.Length) && c.now <= round.sendTime
    requires Unanswered(c.table.rx, |c.sent|)
    modifies c, c.msg, c.table, c.table.times, c.table.duplicates, server, server.gaps, sr, sr.buf, cr, cr.buf
    ensures c.Valid() && c.Streaming() && InStep(c.sent, sr, cr) && c.now == round.sendTime
    ensures |c.sent| == old(|c.sent|) + 1 && Unanswered(c.table.rx, |c.sent|)
    ensures v == Recorded(true)
    ensures c.table.receiveCount == old(c.table.receiveCount) + 1
    ensures server.receiveCount == old(server.receiveCount) + 1
  {
    hide FromLE, SwapHeader, OnWire, Clean, HasGot, Streams, Books, PacketTimes.Valid, At, IsRequest, Current, Length,
         Unanswered;
    ghost var sent := c.sent;
    var bytes; ghost var m;
    bytes, m := SendRequest(c, round);
    EchoSized(c.sent, c.wire, c.mode, c.table.replyEvery, c.payload, sr.msgMax);
    EchoSized(c.sent, c.wire, c.mode, c.table.replyEvery, c.payload, cr.msgMax);
    assert sent == c.sent[..|c.sent| - 1];
    LastRequest(c);
    FewerUnanswered(c.table.rx, |sent|, round.receiveTime);
    var memory := Exchange(server, key, sr, cr, bytes, round, sent, m);
    v := ReceiveEcho(c, memory, round.receiveTime);
  }

  lemma FewerUnanswered(rx: seq<seq<int>>, n: nat, time: int)
    requires Unanswered(rx, n)
    ensures n + 1 < |rx| && rx[n + 1] != [] ==> rx[n + 1][0] == 0
    ensures n + 1 < |rx| && rx[n + 1] != [] ==> Unanswered(rx[n + 1 := rx[n + 1][0 := time]], n + 1)
  {
  }

  lemma LastRequest(c: Client)
    requires c.Valid() && c.Streaming() && c.mode.Always? && c.sent != []
    ensures var m := c.sent[|c.sent| - 1];
            EFFECTIVE_SIZE <= |m| && Length(m) == |m| && m[8] == FlagByte(true)
  {
    hide FromLE, PacketTimes.Valid, Books, At;
    Waiting(c);
  }

  /** The client gets the echo of its last request, which is still in its buffer. */
  method ReceiveEcho(c: Client, memory: seq<byte>, time: int) returns (v: Verdict)
    requires c.Valid() && c.Streaming() && c.mode.Always? && c.sent != [] && time != 0
    requires Length(c.request) == |c.sent[|c.sent| - 1]| >= EFFECTIVE_SIZE
    requires memory == Echo(c.sent[|c.sent| - 1], false)
    requires |c.sent| < |c.table.rx| && c.table.rx[|c.sent|] != [] ==> c.table.rx[|c.sent|][0] == 0
    modifies c.table.times, c.table.duplicates, c.table`tx, c.table`rx, c.table`receiveCount, c.table`replies
    ensures c.Valid() && v == Recorded(true) && c.table.receiveCount == old(c.table.receiveCount) + 1
    ensures |c.sent| < |old(c.table.rx)| && old(c.table.rx)[|c.sent|] != []
    ensures c.table.rx == old(c.table.rx)[|c.sent| := old(c.table.rx)[|c.sent|][0 := time]]
  {
    hide FromLE, SwapHeader, OnWire, Streams, Books, PacketTimes.Valid, At;
    ghost var m := c.sent[|c.sent| - 1];
    Waiting(c);
    v := HandleReply(c, memory, time, 0);
    IntegrityExactly(m, |c.sent|, c.table.replyEvery, c.request, c.mode, c.payload, []);
    assert memory + [] == memory;
  }

  /** An echo with one byte of its payload changed is recorded, and the check refuses it. */
  method ReceiveTampered(c: Client, memory: seq<byte>, i: nat, x: byte, time: int) returns (v: Verdict)
    requires c.Valid() && c.Streaming() && c.mode.Always? && c.sent != [] && time != 0
    requires Length(c.request) == |c.sent[|c.sent| - 1]| >= EFFECTIVE_SIZE
    requires EFFECTIVE_SIZE <= i < Length(c.request) <= |c.request| && x != c.request[i]
    requires memory == Echo(c.sent[|c.sent| - 1], false)[i := x]
    modifies c.table.times, c.table.duplicates, c.table`tx, c.table`rx, c.table`receiveCount, c.table`replies
    ensures c.Valid() && v == Recorded(false)
  {
    hide FromLE, SwapHeader, OnWire, Streams, Books, PacketTimes.Valid, At;
    Waiting(c);
    ghost var echo := Echo(c.sent[|c.sent| - 1], false);
    assert memory[0..8] == echo[0..8];
    TamperedIsRefused(c.request, echo, i, x);
    v := HandleReply(c, memory, time, 0);
  }

  /** What a client in ping-pong mode knows while it waits for an answer. */
  lemma Waiting(c: Client)
    requires c.Valid() && c.Streaming() && c.mode.Always? && c.sent != []
    ensures var m, n := c.sent[|c.sent| - 1], |c.sent|;
            && IsRequest(m, n, c.mode, c.table.replyEvery, c.payload) && m[8] == FlagByte(true)
            && Current(c.request, c.mode, c.payload)
            && SeqNo(Echo(m, false)) == n <= c.table.maxSequenceNo
            && HasFlag(m, Pong) && !HasFlag(Echo(m, false), Flag.Client) && !HasFlag(Echo(m, false), Flag.Warmup)
            && 1 < c.table.blockSize && n < |c.table.rx| && |c.table.rx[n]| == c.table.blockSize - 1
    ensures c.table.Slot(|c.sent|) == |c.sent|
  {
    hide FromLE, SwapHeader, OnWire;
    var m := c.sent[|c.sent| - 1];
    Client.FlagKeeps(m, Flag.Client);
    FlagByteMeans(m, true);
  }

  /** Plays all rounds. */
  method Play<K>(c: Client, server: Server<K>, key: K, sr: Receiver, cr: Receiver, rounds: seq<Round>)
    returns (verdicts: seq<Verdict>)
    requires c.Valid() && c.Streaming() && c.mode.Always? && c.sent == [] && InStep([], sr, cr)
    requires c.msg != sr.buf && c.msg != cr.buf && c.msg.Length <= sr.msgMax && c.msg.Length <= cr.msgMax
    requires !server.bridge && !server.dontReply
    requires |rounds| <= c.table.maxSequenceNo && Unanswered(c.table.rx, 0) && c.now <= 0
    requires forall i | 0 <= i < |rounds| :: Playable(rounds[i], c.msg.Length)
    requires forall i, j | 0 <= i < j < |rounds| :: rounds[i].sendTime <= rounds[j].sendTime
    modifies c, c.msg, c.table, c.table.times, c.table.duplicates, server, server.gaps, sr, sr.buf, cr, cr.buf
    ensures |verdicts| == |rounds| && forall k | 0 <= k < |rounds| :: verdicts[k] == Recorded(true)
    ensures c.table.receiveCount == old(c.table.receiveCount) + |rounds|
    ensures server.receiveCount == old(server.receiveCount) + |rounds|
  {
    hide FromLE, SwapHeader, HasServed, HasGot, Streams, Books, PacketTimes.Valid, At, Through, Unanswered;
    verdicts := [];
    for k := 0 to |rounds|
      invariant c.Valid() && c.Streaming() && |c.sent| == k && InStep(c.sent, sr, cr)
      invariant Unanswered(c.table.rx, k)
      invariant c.table.receiveCount == old(c.table.receiveCount) + k
      invariant server.receiveCount == old(server.receiveCount) + k
      invariant k < |rounds| ==> c.now <= rounds[k].sendTime
      invariant |verdicts| == k && forall i | 0 <= i < k :: verdicts[i] == Recorded(true)
    {
      assert 0 < rounds[k].sendTime;
      var v := PlayRound(c, server, key, sr, cr, rounds[k]);
      verdicts := verdicts + [v];
    }
  }

  /** A whole ping-pong run: whatever the pieces in which requests and echoes travel, and with either
      way of receiving on either side, every reply is recorded once, and the data integrity check accepts every one. */
  method Run<K(==)>(payload: seq<byte>, rounds: seq<Round>, maxSequenceNo: nat, maxSize: nat, msgMax: nat, key: K,
                    serverSide: Strategy, clientSide: Strategy)
    returns (verdicts: seq<Verdict>, received: nat)
    requires EFFECTIVE_SIZE + |payload| <= msgMax <= maxSize + 1 && EFFECTIVE_SIZE <= maxSize < TWO_32 - 1
    requires |rounds| <= maxSequenceNo < TWO_64
    requires forall i | 0 <= i < |rounds| :: Playable(rounds[i], EFFECTIVE_SIZE + |payload|)
    requires forall i, j | 0 <= i < j < |rounds| :: rounds[i].sendTime <= rounds[j].sendTime
    ensures |verdicts| == |rounds| == received && forall k | 0 <= k < |rounds| :: verdicts[k] == Recorded(true)
  {
    hide FromLE, SwapHeader, HasServed, HasGot, Streams, Books, PacketTimes.Valid, At, Playable;
    var table := new PacketTimes(maxSequenceNo, 1, 1);
    var c := new Client(Always, table, payload, EFFECTIVE_SIZE);
    var sr := new Receiver(serverSide, maxSize, msgMax, All, MakeServer);
    var cr := new Receiver(clientSide, maxSize, msgMax, All, MakeClient);
    var server := new Server<K>(false, false);
    NothingYet(sr, cr);
    verdicts := Play(c, server, key, sr, cr, rounds);
    received := table.receiveCount;
  }

  lemma NothingYet(sr: Receiver, cr: Receiver)
    requires sr.Valid() && sr.log == [] && sr.pending == []
    requires cr.Valid() && cr.log == [] && cr.pending == []
    requires sr != cr && sr.buf != cr.buf && sr.accept == cr.accept == All
    ensures InStep([], sr, cr)
  {
    hide Idle, Receiver.Valid;
    IdleExactly(sr);
    IdleExactly(cr);
    ServeNothing(sr.msgMax, All);
    ServeNothing(cr.msgMax, All);
  }
}
