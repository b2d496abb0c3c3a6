// The server's treatment of one message (src/server.h): echo the pong requests, feed the gap
// detector.
module Server {
  import opened Messages
  import opened Sender
  import opened GapDetector
  import opened Options

  /** The reply: the request itself, marked as coming from the server unless bridging. */
  function Echo(m: seq<byte>, bridge: bool): (r: seq<byte>)
    requires |m| >= EFFECTIVE_SIZE
    ensures |r| == |m|
  {
    if bridge then m else ClearFlag(m, Flag.Client)
  }

  /** Only the client flag tells the reply from the request. */
  lemma EchoMeans(m: seq<byte>, bridge: bool)
    requires |m| >= EFFECTIVE_SIZE
    ensures forall i | 0 <= i < |m| && i != 8 :: Echo(m, bridge)[i] == m[i]
    ensures forall f | f != Flag.Client :: HasFlag(Echo(m, bridge), f) == HasFlag(m, f)
    ensures HasFlag(Echo(m, bridge), Flag.Client) <==> bridge && HasFlag(m, Flag.Client)
  {
  }

  class Server<K(==)> {
    const bridge: bool
    const dontReply: bool
    const gaps: SwitchOnCalcGaps<K>
    var receiveCount: nat
    var wire: seq<byte>                // what the sockets took of the replies
    ghost var replies: seq<seq<byte>>  // the replies that went out completely

    constructor (bridge: bool, dontReply: bool)
      ensures this.bridge == bridge && this.dontReply == dontReply && fresh(gaps) && gaps.sessions == map[]
      ensures receiveCount == 0 && wire == [] && replies == []
    {
      this.bridge, this.dontReply := bridge, dontReply;
      gaps := new SwitchOnCalcGaps();
      receiveCount, wire, replies := 0, [], [];
    }

    ghost function SessionOf(client: K): Option<Session>
      reads gaps
    {
      if client in gaps.sessions then Some(gaps.sessions[client]) else None
    }

    /** handle_message for a message whose header is valid.  A pong request that is not answered
        because the server does not reply also escapes the gap detector. */
    method HandleMessage(client: K, m: seq<byte>, script: seq<Outcome>) returns (more: bool)
      requires EFFECTIVE_SIZE <= |m| && Length(m) == |m|
      modifies this, gaps
      ensures var counted := HasFlag(m, Flag.Client) && !HasFlag(m, Flag.Warmup);
              var answered := counted && HasFlag(m, Pong) && !dontReply;
              var t := Transmit(script, |m|, |m|);
              && t.sent <= |m|
              && receiveCount == old(receiveCount) + (if counted then 1 else 0)
              && wire == old(wire) + (if answered then SwapHeader(Echo(m, bridge))[..t.sent] else [])
              && replies == old(replies) + (if answered && t.ret == |m| then [Echo(m, bridge)] else [])
              && more == !(answered && t.ret == RET_SOCKET_SHUTDOWN)
      ensures SeqNo(m) < Messages.TWO_64
      ensures gaps.sessions ==
              if !HasFlag(m, Flag.Client) then old(gaps.sessions)
              else if HasFlag(m, Flag.Warmup) then
                old(gaps.sessions)[client := Step(old(SessionOf(client)), GapDetector.Packet.Warmup)]
              else if (HasFlag(m, Pong) && dontReply) || !more then old(gaps.sessions)
              else old(gaps.sessions)[client := Step(old(SessionOf(client)), Data(SeqNo(m)))]
    {
      hide SwapHeader, Transmit, FromLE, CheckGaps;
      TransmitMeans(script, |m|, |m|);
      SeqNoBound(m);
      if !HasFlag(m, Flag.Client) {
        return true;
      }
      if HasFlag(m, Flag.Warmup) {
        gaps.Execute(client, 0, true);
        return true;
      }
      receiveCount := receiveCount + 1;
      if HasFlag(m, Pong) {
        if dontReply {
          return true;
        }
        var reply := if bridge then m else ClearFlag(m, Flag.Client);
        var ret, sent := MsgSendto(|m|, script);
        wire := wire + SwapHeader(reply)[..sent];
        if ret == |m| {
          replies := replies + [reply];
        }
        if ret == RET_SOCKET_SHUTDOWN {
          return false;
        }
      }
      gaps.Execute(client, SeqNo(m), false);
      more := true;
    }
  }
}
