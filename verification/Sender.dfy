// Sending requests: the partial-send loop (src/common.h), the pong modes (src/switches.h) and
// client_send_packet (src/client.h).  The socket is a script of outcomes; when the script is used
// up, the socket takes the rest.
module Sender {
  import opened Messages
  import opened Arith
  import opened Packet

  // --- msg_sendto ---

  const RET_SOCKET_SKIPPED := -2
  const RET_SOCKET_SHUTDOWN := 0
  const RET_ERROR := -1

  /** What one sendto() returns: it took some bytes, the peer is gone, the call would block, a signal
      came, or another error. */
  datatype Outcome = Took(bytes: nat) | Closed | Again | Interrupted | Failed

  datatype Transfer = Transfer(ret: int, sent: nat)

  /** The transfer of the last left of size bytes. */
  function Transmit(script: seq<Outcome>, left: nat, size: nat): Transfer
    requires left <= size
  {
    if left == 0 || script == [] then Transfer(size, size) else
    match script[0]
    case Took(k) =>
      if k == 0 then Transfer(RET_SOCKET_SHUTDOWN, size - left)
      else Transmit(script[1..], left - Min(k, left), size)
    case Closed => Transfer(RET_SOCKET_SHUTDOWN, size - left)
    case Again => if left < size then Transmit(script[1..], left, size) else Transfer(RET_SOCKET_SKIPPED, 0)
    case Interrupted => Transfer(RET_ERROR, size - left)
    case Failed => Transfer(RET_ERROR, size - left)
  }

  /** Nothing but bytes taken and "would block". */
  predicate Clean(script: seq<Outcome>) {
    forall i | 0 <= i < |script| :: script[i] == Again || (script[i].Took? && script[i].bytes > 0)
  }

  /** The result tells what happened: the size exactly if all bytes went out, "skipped" exactly if the
      first call would have blocked (so never once a byte has gone out), and something else only
      after a signal, an error or a shutdown. */
  lemma {:induction false} TransmitMeans(script: seq<Outcome>, left: nat, size: nat)
    requires left <= size && 0 < size
    ensures var t := Transmit(script, left, size);
            && size - left <= t.sent <= size
            && (t.ret == size <==> t.sent == size)
            && (t.ret == RET_SOCKET_SKIPPED <==> left == size && script != [] && script[0] == Again)
            && (t.ret == RET_SOCKET_SKIPPED ==> t.sent == 0)
            && (t.ret == size || t.ret == RET_SOCKET_SKIPPED || t.ret == RET_SOCKET_SHUTDOWN || t.ret == RET_ERROR)
            && (Clean(script) ==> t.ret == size || t.ret == RET_SOCKET_SKIPPED)
    decreases |script|
  {
    if left != 0 && script != [] {
      match script[0]
      case Took(k) =>
        if k != 0 {
          assert Clean(script) ==> Clean(script[1..]);
          TransmitMeans(script[1..], left - Min(k, left), size);
        }
      case Again =>
        if left < size {
          assert Clean(script) ==> Clean(script[1..]);
          TransmitMeans(script[1..], left, size);
        }
      case _ =>
    }
  }

  /** The bytes that the first n outcomes took. */
  function BytesTaken(script: seq<Outcome>, n: nat): nat
    requires n <= |script|
  {
    if n == 0 then 0 else BytesTaken(script, n - 1) + if script[n - 1].Took? then script[n - 1].bytes else 0
  }

  /** The i-th call does not end the transfer: it took bytes, or would have blocked after some went
      out. */
  predicate GoesOn(script: seq<Outcome>, i: nat, before: nat)
    requires i < |script|
  {
    (script[i].Took? && script[i].bytes > 0) || (script[i] == Again && before + BytesTaken(script, i) > 0)
  }

  /** The code for the call that ends a transfer. */
  predicate EndsWith(o: Outcome, ret: int) {
    match o
    case Took(k) => k == 0 && ret == RET_SOCKET_SHUTDOWN
    case Closed => ret == RET_SOCKET_SHUTDOWN
    case Again => ret == RET_SOCKET_SKIPPED
    case Interrupted => ret == RET_ERROR
    case Failed => ret == RET_ERROR
  }

  /** The transfer goes on up to call i: there all bytes are out, or the call ends it, with the code for
      what happened and the bytes taken until then. */
  ghost predicate TransferEndsAt(script: seq<Outcome>, before: nat, size: nat, t: Transfer, i: nat) {
    && i <= |script|
    && (forall j | 0 <= j < i :: GoesOn(script, j, before) && before + BytesTaken(script, j) < size)
    && if i == |script| || before + BytesTaken(script, i) >= size then t == Transfer(size, size)
       else !GoesOn(script, i, before) && EndsWith(script[i], t.ret) && t.sent == before + BytesTaken(script, i)
  }

  lemma {:induction false} BytesTakenNext(script: seq<Outcome>, n: nat)
    requires 0 < |script| && n < |script|
    ensures BytesTaken(script, n + 1) == (if script[0].Took? then script[0].bytes else 0) + BytesTaken(script[1..], n)
  {
    if n > 0 {
      BytesTakenNext(script, n - 1);
    }
  }

  lemma {:induction false} TransmitExactly(script: seq<Outcome>, left: nat, size: nat) returns (i: nat)
    requires left <= size && 0 < size
    ensures TransferEndsAt(script, size - left, size, Transmit(script, left, size), i)
    decreases |script|
  {
    i := 0;
    if left > 0 && script != [] && GoesOn(script, 0, size - left) {
      var taken := if script[0].Took? then script[0].bytes else 0;
      if taken < left {
        var k := TransmitExactly(script[1..], left - taken, size);
        EndsLater(script, size - left, taken, size, Transmit(script, left, size), k);
        i := k + 1;
      } else {
        assert BytesTaken(script, 1) == BytesTaken(script, 0) + taken;
        i := 1;
        AllOut(script[1..], size);
      }
    }
  }

  lemma AllOut(script: seq<Outcome>, size: nat)
    ensures Transmit(script, 0, size) == Transfer(size, size)
  {
  }

  lemma EndsLater(script: seq<Outcome>, before: nat, taken: nat, size: nat, t: Transfer, k: nat)
    requires script != [] && taken == (if script[0].Took? then script[0].bytes else 0)
    requires GoesOn(script, 0, before) && before + taken < size
    requires TransferEndsAt(script[1..], before + taken, size, t, k)
    ensures TransferEndsAt(script, before, size, t, k + 1)
  {
    forall j | 0 <= j <= k
      ensures before + BytesTaken(script, j + 1) == before + taken + BytesTaken(script[1..], j)
    {
      BytesTakenNext(script, j);
    }
    forall j | 0 <= j < k + 1
      ensures GoesOn(script, j, before) && before + BytesTaken(script, j) < size
    {
      if j > 0 {
        assert GoesOn(script[1..], j - 1, before + taken);
        assert script[j] == script[1..][j - 1];
      }
    }
    if k < |script[1..]| {
      assert script[k + 1] == script[1..][k];
    }
  }

  /** msg_sendto: returns the code and how many of the bytes the socket took. */
  method MsgSendto(nbytes: nat, script: seq<Outcome>) returns (ret: int, sent: nat)
    requires 0 < nbytes
    ensures Transfer(ret, sent) == Transmit(script, nbytes, nbytes)
  {
    var size, left, used := nbytes, nbytes, 0;
    ret := 0;
    while left > 0
      invariant 0 <= left <= size && used <= |script|
      invariant left == 0 ==> ret == size
      invariant Transmit(script[used..], left, size) == Transmit(script, nbytes, nbytes)
      decreases |script| - used, left
    {
      var outcome := if used < |script| then script[used] else Took(left);
      if used < |script| {
        assert script[used..][1..] == script[used + 1..];
        used := used + 1;
      }
      if outcome.Took? && outcome.bytes > 0 {
        left := left - Min(outcome.bytes, left);
        ret := size;
      } else if outcome.Took? || outcome.Closed? {
        return RET_SOCKET_SHUTDOWN, size - left;
      } else if outcome.Again? {
        if left < size {
          continue;
        }
        return RET_SOCKET_SKIPPED, 0;
      } else {
        return RET_ERROR, size - left;
      }
    }
    sent := size;
  }

  // --- what goes out ---

  datatype PongMode = Normal | Always | Never

  /** The request as it is sent: the pong flag is set for the requests that want an answer. */
  function Image(req: seq<byte>, mode: PongMode, replyEvery: nat): (r: seq<byte>)
    requires |req| >= EFFECTIVE_SIZE && replyEvery > 0
    ensures |r| == |req|
  {
    if mode.Normal? && SeqNo(req) % replyEvery == 0 then SetFlag(req, Pong) else req
  }

  /** Which requests get a send time. */
  predicate Timed(seqNo: nat, mode: PongMode, replyEvery: nat)
    requires replyEvery > 0
  {
    mode.Always? || (mode.Normal? && seqNo % replyEvery == 0)
  }

  function OnWire(reqs: seq<seq<byte>>): seq<byte>
    requires forall k | 0 <= k < |reqs| :: |reqs[k]| >= EFFECTIVE_SIZE
  {
    if reqs == [] then [] else OnWire(reqs[..|reqs| - 1]) + SwapHeader(reqs[|reqs| - 1])
  }

  /** The first seqNo numbers have been used: exactly the slots up to the last timed one are set, with
      times that never decrease; all later slots are empty. */
  ghost predicate Timeline(tx: seq<int>, n: nat, now: int) {
    && n < |tx|
    && (forall s | 1 <= s <= n :: 0 < tx[s] <= now)
    && (forall s, t | 1 <= s <= t <= n :: tx[s] <= tx[t])
    && (forall s | n < s < |tx| :: tx[s] == 0)
  }

  lemma NextSlot(s: nat, re: nat)
    requires re > 0
    ensures (s + 1) / re == if (s + 1) % re == 0 then s / re + 1 else s / re
  {
    FloorIs(s, re, s / re);
    if (s + 1) % re == 0 {
      MulMono(1, (s + 1) / re, re);
      assert (s + 1) / re * re == s + 1;
      assert ((s + 1) / re - 1) * re == s + 1 - re;
      FloorIs(s, re, (s + 1) / re - 1);
    } else {
      var q, r := (s + 1) / re, (s + 1) % re;
      assert q * re + r == s + 1;
      FloorIs(s, re, q);
    }
  }

  lemma {:induction false} OnWireNext(reqs: seq<seq<byte>>, r: seq<byte>)
    requires forall k | 0 <= k < |reqs| :: |reqs[k]| >= EFFECTIVE_SIZE
    requires |r| >= EFFECTIVE_SIZE
    ensures OnWire(reqs + [r]) == OnWire(reqs) + SwapHeader(r)
  {
    assert (reqs + [r])[..|reqs|] == reqs;
  }

  /** A timed request extends the timeline by its slot; any other leaves it as it is. */
  lemma TimelineNext(tx: seq<int>, s: nat, re: nat, last: int, now: int)
    requires re > 0 && last <= now && 0 < now
    requires Timeline(tx, s / re, last) && (s + 1) / re < |tx|
    ensures (s + 1) % re == 0 ==> tx[(s + 1) / re] == 0 && Timeline(tx[(s + 1) / re := now], (s + 1) / re, now)
    ensures (s + 1) % re != 0 ==> Timeline(tx, (s + 1) / re, now)
    ensures Timeline(tx, s / re, now)
  {
    NextSlot(s, re);
  }

  /** The largest sequence number: that of the table, except in the mode that has no use for one. */
  function Limit(mode: PongMode, maxSeq: nat): nat {
    if mode.Never? then TWO_64 - 1 else maxSeq
  }

  /** Every attempt was numbered or skipped, and the send times are complete. */
  ghost predicate Books(mode: PongMode, replyEvery: nat, maxSeq: nat, tx: seq<int>, seqNo: nat, skips: nat,
                        attempts: nat, now: int) {
    && attempts == seqNo + skips
    && seqNo <= Limit(mode, maxSeq) && maxSeq < TWO_64
    && 0 < replyEvery && (mode.Always? ==> replyEvery == 1)
    && (!mode.Never? ==> Timeline(tx, seqNo / replyEvery, now))
  }

  /** The books after one more attempt: a skipped one leaves the send times as they were. */
  lemma BooksNext(mode: PongMode, replyEvery: nat, maxSeq: nat, tx: seq<int>, seqNo: nat, skips: nat, attempts: nat,
                  now: int, time: int, skipped: bool, tx': seq<int>)
    requires Books(mode, replyEvery, maxSeq, tx, seqNo, skips, attempts, now)
    requires now <= time && 0 < time && seqNo < Limit(mode, maxSeq)
    requires !mode.Never? ==> 0 <= (seqNo + 1) / replyEvery < |tx|
    requires tx' == if !Timed(seqNo + 1, mode, replyEvery) then tx
                    else tx[(seqNo + 1) / replyEvery := if skipped then 0 else time]
    ensures skipped ==> tx' == tx && Books(mode, replyEvery, maxSeq, tx', seqNo, skips + 1, attempts + 1, time)
    ensures !skipped ==> Books(mode, replyEvery, maxSeq, tx', seqNo + 1, skips, attempts + 1, time)
  {
    if !mode.Never? {
      hide Timeline;
      TimelineNext(tx, seqNo, replyEvery, now, time);
    }
  }

  /** The flags of a request: client, and pong if it wants an answer. */
  function FlagByte(pong: bool): byte {
    if pong then 3 else 1
  }

  lemma FlagByteMeans(h: seq<byte>, pong: bool)
    requires |h| >= EFFECTIVE_SIZE && h[8] == FlagByte(pong)
    ensures HasFlag(h, Client) && !HasFlag(h, Warmup) && HasFlag(h, Pong) == pong
  {
  }

  /** The n-th request: its number, its flags, its own length, and as much of the payload as it has
      room for. */
  predicate IsRequest(r: seq<byte>, n: nat, mode: PongMode, replyEvery: nat, payload: seq<byte>)
    requires replyEvery > 0
  {
    && EFFECTIVE_SIZE <= |r| <= EFFECTIVE_SIZE + |payload|
    && SeqNo(r) == n && r[8] == FlagByte(Timed(n, mode, replyEvery)) && r[9] == 0 && Length(r) == |r|
    && r[EFFECTIVE_SIZE..] == payload[..|r| - EFFECTIVE_SIZE]
  }

  /** Over a clean socket everything the socket took is whole requests, numbered from 1. */
  ghost predicate Streams(sent: seq<seq<byte>>, wire: seq<byte>, mode: PongMode, replyEvery: nat, payload: seq<byte>)
    requires replyEvery > 0
  {
    && (forall k | 0 <= k < |sent| :: IsRequest(sent[k], k + 1, mode, replyEvery, payload))
    && wire == OnWire(sent)
  }

  lemma StreamsNext(sent: seq<seq<byte>>, wire: seq<byte>, mode: PongMode, replyEvery: nat, payload: seq<byte>,
                    r: seq<byte>)
    requires replyEvery > 0 && Streams(sent, wire, mode, replyEvery, payload)
    requires IsRequest(r, |sent| + 1, mode, replyEvery, payload)
    ensures Streams(sent + [r], wire + SwapHeader(r), mode, replyEvery, payload)
  {
    hide Length, SeqNo, SwapHeader, OnWire;
    OnWireNext(sent, r);
  }

  lemma {:induction false} OnWirePrefix(reqs: seq<seq<byte>>, k: nat)
    requires k <= |reqs| && forall i | 0 <= i < |reqs| :: |reqs[i]| >= EFFECTIVE_SIZE
    ensures OnWire(reqs[..k]) <= OnWire(reqs)
    decreases |reqs|
  {
    if k < |reqs| {
      OnWirePrefix(reqs[..|reqs| - 1], k);
      assert reqs[..|reqs| - 1][..k] == reqs[..k];
    } else {
      assert reqs[..k] == reqs;
    }
  }

  /** On the wire the k-th request starts with the number k + 1 and its length, in network order, and
      ends with its payload. */
  lemma WireFormat(sent: seq<seq<byte>>, wire: seq<byte>, mode: PongMode, replyEvery: nat, payload: seq<byte>, k: nat)
    requires replyEvery > 0 && Streams(sent, wire, mode, replyEvery, payload) && k < |sent|
    ensures var start, len := |OnWire(sent[..k])|, |sent[k]|;
            && start + len <= |wire| && EFFECTIVE_SIZE <= len
            && FromBE(wire[start..start + 8]) == k + 1
            && wire[start + 8..start + 10] == [0, if Timed(k + 1, mode, replyEvery) then 3 else 1]
            && FromBE(wire[start + 10..start + 14]) == len
            && wire[start + 14..start + len] == payload[..len - 14]
  {
    hide SwapHeader, FromLE, FromBE, OnWire;
    assert IsRequest(sent[k], k + 1, mode, replyEvery, payload);
    var start, m := |OnWire(sent[..k])|, SwapHeader(sent[k]);
    assert sent[..k + 1] == sent[..k] + [sent[k]];
    OnWireNext(sent[..k], sent[k]);
    OnWirePrefix(sent, k + 1);
    InStream(OnWire(sent[..k]), m, wire);
    NetworkOrder(sent[k]);
  }

  lemma InStream(before: seq<byte>, m: seq<byte>, wire: seq<byte>)
    requires before + m <= wire && EFFECTIVE_SIZE <= |m|
    ensures var start := |before|;
            && wire[start..start + 8] == m[0..8] && wire[start + 8..start + 10] == m[8..10]
            && wire[start + 10..start + 14] == m[10..14] && wire[start + 14..start + |m|] == m[14..]
  {
    assert forall i | 0 <= i < |m| :: wire[|before| + i] == (before + m)[|before| + i] == m[i];
  }

  // --- the client ---

  class Client {
    const msg: array<byte>          // the request, in host order between operations
    const mode: PongMode
    const table: PacketTimes
    var skipCount: nat              // g_skipCount
    var wire: seq<byte>             // what the socket took

    ghost const payload: seq<byte>  // what the request carries after its header
    ghost var request: seq<byte>    // the bytes of msg
    ghost var attempts: nat
    ghost var now: int              // the last clock reading
    ghost var sent: seq<seq<byte>>  // the requests that went out completely

    /** The request is where it should be and fits its buffer. */
    ghost predicate Ready()
      reads this, msg
    {
      && msg.Length >= EFFECTIVE_SIZE && |request| == msg.Length && At(msg, 0, request)
      && EFFECTIVE_SIZE <= Length(request) <= msg.Length < TWO_32
      && request[8] == FlagByte(mode.Always?) && request[9] == 0
      && |payload| + EFFECTIVE_SIZE == msg.Length && request[EFFECTIVE_SIZE..] == payload
    }

    ghost predicate Valid()
      reads this, msg, table, table.times, table.duplicates
    {
      && Ready() && table.Valid()
      && Books(mode, table.replyEvery, table.maxSequenceNo, table.tx, SeqNo(request), skipCount, attempts, now)
    }

    /** ClientBase and the pong modes' constructors: sequence number 0, the client flag, and the pong
        flag as the mode wants it. */
    constructor (mode: PongMode, table: PacketTimes, payload: seq<byte>, length: nat)
      requires |payload| + EFFECTIVE_SIZE < TWO_32 && EFFECTIVE_SIZE <= length <= |payload| + EFFECTIVE_SIZE
      requires table.Valid() && table.maxSequenceNo < TWO_64 && (mode.Always? ==> table.replyEvery == 1)
      requires forall s | 0 <= s < |table.tx| :: table.tx[s] == 0
      ensures Valid() && fresh(msg) && this.mode == mode && this.table == table
      ensures SeqNo(request) == 0
      ensures Length(request) == length && msg.Length == |payload| + EFFECTIVE_SIZE
      ensures skipCount == 0 && wire == [] && sent == [] && now == 0 && this.payload == payload && Streaming()
    {
      this.mode, this.table, this.payload := mode, table, payload;
      skipCount, wire, attempts, sent, now := 0, [], 0, [], 0;
      var bytes := FirstRequest(mode, payload, length);
      msg := new byte[|bytes|](i requires 0 <= i < |bytes| => bytes[i]);
      request := bytes;
      new;
      hide FromLE, PacketTimes.Valid, Timeline;
      assert msg[0..|bytes|] == bytes;
      StartOfBooks(mode, table);
    }

    static function FirstRequest(mode: PongMode, payload: seq<byte>, length: nat): (b: seq<byte>)
      requires length < TWO_32
      ensures |b| == EFFECTIVE_SIZE + |payload| && SeqNo(b) == 0 && Length(b) == length
      ensures b[8] == FlagByte(mode.Always?) && b[9] == 0 && b[14..] == payload
    {
      Initial(FlagByte(mode.Always?), length, payload);
      ToLE(0, 8) + [FlagByte(mode.Always?), 0] + ToLE(length, 4) + payload
    }

    static lemma StartOfBooks(mode: PongMode, table: PacketTimes)
      requires table.Valid() && table.maxSequenceNo < TWO_64 && (mode.Always? ==> table.replyEvery == 1)
      requires forall s | 0 <= s < |table.tx| :: table.tx[s] == 0
      ensures Books(mode, table.replyEvery, table.maxSequenceNo, table.tx, 0, 0, 0, 0)
    {
    }

    static lemma Initial(flags: byte, length: nat, payload: seq<byte>)
      requires length < TWO_32
      ensures var b := ToLE(0, 8) + [flags, 0] + ToLE(length, 4) + payload;
              && |b| == EFFECTIVE_SIZE + |payload| && SeqNo(b) == 0 && Length(b) == length
              && b[8] == flags && b[9] == 0 && b[14..] == payload
    {
      var b := ToLE(0, 8) + [flags, 0] + ToLE(length, 4) + payload;
      Pow256Values();
      StoreLoad(0, 8);
      StoreLoad(length, 4);
      assert b[0..8] == ToLE(0, 8) && b[10..14] == ToLE(length, 4);
    }

    /** Stores bytes into the message. */
    method Store(p: nat, bytes: seq<byte>)
      requires p + |bytes| <= msg.Length && |request| == msg.Length && At(msg, 0, request)
      modifies msg, this`request
      ensures At(msg, 0, request) && request == old(request)[..p] + bytes + old(request)[p + |bytes|..]
    {
      forall i | p <= i < p + |bytes| {
        msg[i] := bytes[i - p];
      }
      request := request[..p] + bytes + request[p + |bytes|..];
      assert msg[0..msg.Length] == request;
    }

    method SetSequenceCounter(n: nat)
      requires Ready() && n < TWO_64
      modifies msg, this`request
      ensures Ready() && request == WithSeqNo(old(request), n)
    {
      SameTail(request, n);
      Store(0, ToLE(n, 8));
      assert request == WithSeqNo(old(request), n);
    }

    static lemma SameTail(h: seq<byte>, n: nat)
      requires |h| >= EFFECTIVE_SIZE && n < TWO_64
      ensures var r := WithSeqNo(h, n);
              && Length(r) == Length(h) && r[8] == h[8] && r[9] == h[9] && r[14..] == h[14..]
              && r == ToLE(n, 8) + h[8..]
      ensures h[..0] + ToLE(n, 8) + h[8..] == WithSeqNo(h, n)
    {
      var r := WithSeqNo(h, n);
      assert r[8..][2..6] == r[10..14] && h[8..][2..6] == h[10..14];
      assert r[8..][0] == r[8] && h[8..][0] == h[8] && r[8..][1] == r[9] && h[8..][1] == h[9];
    }

    static lemma FlagKeeps(h: seq<byte>, f: Flag)
      requires |h| >= EFFECTIVE_SIZE
      ensures Length(SetFlag(h, f)) == Length(h) == Length(ClearFlag(h, f))
      ensures SeqNo(SetFlag(h, f)) == SeqNo(h) == SeqNo(ClearFlag(h, f))
      ensures SetFlag(h, f)[14..] == h[14..] == ClearFlag(h, f)[14..]
    {
      assert SetFlag(h, f)[10..14] == h[10..14] == ClearFlag(h, f)[10..14];
      assert SetFlag(h, f)[0..8] == h[0..8] == ClearFlag(h, f)[0..8];
    }

    function GetSequenceCounter(): nat
      reads msg
      requires msg.Length >= EFFECTIVE_SIZE
    {
      SeqNo(msg[..])
    }

    /** The conversion to network order, the transfer, and the conversion back. */
    method Emit(length: nat, script: seq<Outcome>) returns (ret: int)
      requires |request| == msg.Length && At(msg, 0, request) && EFFECTIVE_SIZE <= length <= msg.Length
      modifies msg, this`wire
      ensures At(msg, 0, request)
      ensures var t := Transmit(script, length, length);
              t.sent <= length && ret == t.ret && wire == old(wire) + SwapHeader(request)[..t.sent]
    {
      hide SwapHeader, Transmit;
      SwapHeaderAt(msg, 0, request);
      var sent;
      ret, sent := MsgSendto(length, script);
      TransmitMeans(script, length, length);
      assert msg[..sent] == SwapHeader(request)[..sent];
      wire := wire + msg[..sent];
      SwapTwice(request);
      SwapHeaderAt(msg, 0, SwapHeader(request));
    }

    /** Emit, with the send time taken before and cleared again if nothing was sent. */
    method EmitTimed(length: nat, script: seq<Outcome>, seqNo: nat, time: int) returns (ret: int)
      requires |request| == msg.Length && At(msg, 0, request) && EFFECTIVE_SIZE <= length <= msg.Length
      requires table.Valid() && seqNo <= table.maxSequenceNo
      modifies msg, this`wire, table.times, table`tx, table`rx
      ensures At(msg, 0, request) && table.Valid() && table.rx == old(table.rx)
      ensures var t := Transmit(script, length, length);
              t.sent <= length && ret == t.ret && wire == old(wire) + SwapHeader(request)[..t.sent]
      ensures table.tx == old(table.tx)[table.Slot(seqNo) := if ret == RET_SOCKET_SKIPPED then 0 else time]
    {
      hide SwapHeader, Transmit, At, PacketTimes.Holds;
      table.SetTxTime(seqNo, time);
      ret := Emit(length, script);
      if ret == RET_SOCKET_SKIPPED {
        table.ClearTxTime(seqNo);
      }
    }

    method SetPong(on: bool)
      requires msg.Length >= EFFECTIVE_SIZE && |request| == msg.Length && At(msg, 0, request)
      modifies msg, this`request
      ensures At(msg, 0, request)
      ensures request == if on then SetFlag(old(request), Pong) else ClearFlag(old(request), Pong)
    {
      Store(8, [if on then SetBit(msg[8], Pong) else ClearBit(msg[8], Pong)]);
    }

    /** The pong modes' msg_sendto. */
    method SendTo(script: seq<Outcome>, time: int) returns (ret: int)
      requires Ready() && table.Valid() && SeqNo(request) <= Limit(mode, table.maxSequenceNo)
      modifies msg, this`request, this`wire, table.times, table`tx, table`rx
      ensures Ready() && request == old(request)
      ensures table.Valid() && table.rx == old(table.rx)
      ensures var len := Length(request);
              var t := Transmit(script, len, len);
              && t.sent <= len && ret == t.ret
              && wire == old(wire) + SwapHeader(Image(request, mode, table.replyEvery))[..t.sent]
      ensures table.tx == if !Timed(SeqNo(request), mode, table.replyEvery) then old(table.tx)
                          else
                            old(table.tx)[table.Slot(SeqNo(request)) := if ret == RET_SOCKET_SKIPPED then 0 else time]
    {
      hide SwapHeader, Transmit, FromLE, PacketTimes.Holds, SetFlag, ClearFlag;
      assert msg[..] == request;
      var length := Length(msg[..]);
      var seqNo := GetSequenceCounter();
      TransmitMeans(script, length, length);
      if mode.Normal? && seqNo % table.replyEvery == 0 {
        ClearThenSet(request, Pong);
        SetPong(true);
        ret := EmitTimed(length, script, seqNo, time);
        SetPong(false);
      } else if mode.Always? {
        ret := EmitTimed(length, script, seqNo, time);
      } else {
        ret := Emit(length, script);
      }
    }

    /** The request the next attempt sends. */
    ghost function Tried(): seq<byte>
      reads this
      requires |request| >= EFFECTIVE_SIZE && SeqNo(request) + 1 < TWO_64
    {
      WithSeqNo(request, SeqNo(request) + 1)
    }

    static lemma BackAgain(h: seq<byte>)
      requires |h| >= EFFECTIVE_SIZE && SeqNo(h) + 1 < TWO_64
      ensures var r := WithSeqNo(h, SeqNo(h) + 1);
              && WithSeqNo(r, SeqNo(r) - 1) == h
              && Length(r) == Length(h) && r[8] == h[8] && r[9] == h[9] && r[14..] == h[14..]
    {
      hide FromLE, ToLE;
      SameTail(h, SeqNo(h) + 1);
      WithSeqNoTwice(h, SeqNo(h) + 1, SeqNo(h));
      RewriteSeqNo(h);
    }

    /** An attempt: take the next number and send. */
    method Attempt(script: seq<Outcome>, time: int) returns (ret: int)
      requires Valid() && SeqNo(request) < Limit(mode, table.maxSequenceNo) && now <= time && 0 < time
      modifies msg, this`request, this`wire, table.times, table`tx, table`rx
      ensures Ready() && table.Valid() && table.rx == old(table.rx) && request == old(Tried())
      ensures var len := Length(old(request));
              var t := Transmit(script, len, len);
              && t.sent <= len && ret == t.ret
              && wire == old(wire) + SwapHeader(Image(request, mode, table.replyEvery))[..t.sent]
      ensures var skipped := ret == RET_SOCKET_SKIPPED;
              && (skipped ==> table.tx == old(table.tx))
              && Books(mode, table.replyEvery, table.maxSequenceNo, table.tx,
                       if skipped then SeqNo(request) - 1 else SeqNo(request),
                       if skipped then skipCount + 1 else skipCount, attempts + 1, time)
    {
      hide SwapHeader, Transmit, FromLE, PacketTimes.Holds, Books, Timed, NonZeroCells, Sum, WithSeqNo, At, Image;
      ghost var s := SeqNo(request);
      InBooks();
      BackAgain(request);
      Increment();
      if !mode.Never? {
        SlotOf(SeqNo(request));
      }
      ret := SendTo(script, time);
      BooksNext(mode, table.replyEvery, table.maxSequenceNo, old(table.tx), s, skipCount, attempts, now, time,
                ret == RET_SOCKET_SKIPPED, table.tx);
    }

    lemma MsgIs()
      requires Ready()
      ensures msg[..] == request
    {
    }

    method Increment()
      requires Ready() && SeqNo(request) + 1 < TWO_64
      modifies msg, this`request
      ensures Ready() && request == old(Tried())
    {
      hide FromLE, WithSeqNo, At;
      MsgIs();
      SetSequenceCounter((GetSequenceCounter() + 1) % TWO_64);
    }

    method Decrement()
      requires Ready() && 0 < SeqNo(request) < TWO_64
      modifies msg, this`request
      ensures Ready() && request == WithSeqNo(old(request), SeqNo(old(request)) - 1)
    {
      hide FromLE, WithSeqNo, At;
      MsgIs();
      SetSequenceCounter((GetSequenceCounter() + TWO_64 - 1) % TWO_64);
    }

    lemma InBooks()
      requires Valid()
      ensures SeqNo(request) <= Limit(mode, table.maxSequenceNo) < TWO_64 && 0 < table.replyEvery
      ensures mode.Always? ==> table.replyEvery == 1
      ensures attempts == SeqNo(request) + skipCount
    {
    }

    lemma SlotOf(n: nat)
      requires table.Valid() && n <= table.maxSequenceNo
      ensures table.Slot(n) == n / table.replyEvery < |table.tx|
    {
      FloorMono(n, table.maxSequenceNo, table.replyEvery);
    }

    /** client_send_packet: number the request and send it; if the socket would block, take the
        number back. */
    method ClientSendPacket(script: seq<Outcome>, time: int) returns (ret: int)
      requires Valid() && SeqNo(request) < Limit(mode, table.maxSequenceNo) && now <= time && 0 < time
      modifies msg, this`request, this`wire, this`skipCount, this`attempts, this`now, this`sent
      modifies table.times, table`tx, table`rx
      ensures Valid() && attempts == old(attempts) + 1 && now == time && table.rx == old(table.rx)
      ensures SeqNo(old(request)) + 1 < TWO_64
      ensures var len := Length(old(request));
              var t := Transmit(script, len, len);
              var image := Image(old(Tried()), mode, table.replyEvery);
              && t.sent <= len && ret == t.ret
              && wire == old(wire) + SwapHeader(image)[..t.sent]
              && len <= |image| && sent == old(sent) + if ret == len then [image[..len]] else []
      ensures ret == RET_SOCKET_SKIPPED ==>
                && request == old(request) && skipCount == old(skipCount) + 1 && table.tx == old(table.tx)
      ensures ret != RET_SOCKET_SKIPPED ==> request == old(Tried()) && skipCount == old(skipCount)
    {
      hide SwapHeader, Transmit, FromLE, PacketTimes.Valid, Books, WithSeqNo, At, Image;
      InBooks();
      BackAgain(request);
      TransmitMeans(script, Length(request), Length(request));
      ret := Attempt(script, time);
      now, attempts := time, attempts + 1;
      if ret == Length(request) {
        sent := sent + [Image(request, mode, table.replyEvery)[..Length(request)]];
      }
      if ret > 0 {
        return;
      } else if ret == RET_SOCKET_SHUTDOWN {
        return;   // over a stream socket the program ends
      } else if ret == RET_SOCKET_SKIPPED {
        skipCount := skipCount + 1;
        Decrement();
      }
    }

    /** Message::setLength. */
    method SetLength(length: nat)
      requires Valid() && EFFECTIVE_SIZE <= length <= msg.Length
      modifies msg, this`request
      ensures Valid() && request == WithLength(old(request), length)
    {
      hide FromLE, ToLE, PacketTimes.Valid, Books;
      ghost var original := request;
      SameHead(request, length);
      Store(10, ToLE(length, 4));
      assert request == WithLength(original, length);
    }

    static lemma SameHead(h: seq<byte>, n: nat)
      requires |h| >= EFFECTIVE_SIZE && n < TWO_32
      ensures var r := WithLength(h, n);
              SeqNo(r) == SeqNo(h) && r[8] == h[8] && r[9] == h[9] && r == h[..10] + ToLE(n, 4) + h[14..]
    {
      var r := WithLength(h, n);
      assert r[..10][0..8] == r[0..8] && h[..10][0..8] == h[0..8];
      assert r[..10][8] == r[8] && h[..10][8] == h[8] && r[..10][9] == r[9] && h[..10][9] == h[9];
    }

    // --- a run over a stream socket ---

    ghost predicate Streaming()
      reads this
    {
      && table.replyEvery > 0 && Streams(sent, wire, mode, table.replyEvery, payload)
      && |request| >= EFFECTIVE_SIZE && SeqNo(request) == |sent|
    }

    /** One more attempt over a clean socket: the request goes out whole or not at all. */
    method StreamPacket(length: nat, script: seq<Outcome>, time: int)
      requires Valid() && Streaming() && SeqNo(request) < Limit(mode, table.maxSequenceNo)
      requires now <= time && 0 < time
      requires EFFECTIVE_SIZE <= length <= msg.Length && Clean(script)
      modifies msg, this`request, this`wire, this`skipCount, this`attempts, this`now, this`sent
      modifies table.times, table`tx, table`rx
      ensures Valid() && Streaming() && attempts == old(attempts) + 1 && now == time && table.rx == old(table.rx)
      ensures Length(request) == length
      ensures if script != [] && script[0] == Again then sent == old(sent) && skipCount == old(skipCount) + 1
              else
                && |sent| == old(|sent|) + 1 && sent[..old(|sent|)] == old(sent) && |sent[old(|sent|)]| == length
                && skipCount == old(skipCount)
    {
      hide SwapHeader, FromLE, PacketTimes.Valid, Books, WithSeqNo, WithLength, At, Image, Transmit, Streams;
      SameHead(request, length);
      SetLength(length);
      InBooks();
      ghost var tried := Tried();
      BackAgain(request);
      TransmitMeans(script, length, length);
      ImageIs(tried, length, mode, table.replyEvery);
      ghost var image := Image(tried, mode, table.replyEvery);
      var ret := ClientSendPacket(script, time);
      if ret == length {
        StreamsNext(old(sent), old(wire), mode, table.replyEvery, payload, image[..length]);
      } else {
        assert wire == old(wire) && sent == old(sent);
      }
    }

    /** The bytes of a request on the wire, and what its copy carries. */
    static lemma ImageIs(tried: seq<byte>, length: nat, mode: PongMode, replyEvery: nat)
      requires replyEvery > 0 && EFFECTIVE_SIZE <= length <= |tried| && Length(tried) == length
      requires tried[8] == FlagByte(mode.Always?) && tried[9] == 0
      ensures var image := Image(tried, mode, replyEvery);
              && SwapHeader(image)[..length] == SwapHeader(image[..length])
              && IsRequest(image[..length], SeqNo(tried), mode, replyEvery, tried[EFFECTIVE_SIZE..])
    {
      hide FromLE, SwapHeader;
      var image := Image(tried, mode, replyEvery);
      FlagKeeps(tried, Pong);
      SwapPrefix(image, length);
      assert image[..length][10..14] == image[10..14] && image[..length][0..8] == image[0..8];
      assert image[..length][14..] == image[14..][..length - 14];
    }
  }
}
