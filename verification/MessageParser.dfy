// The stream parser (src/message_parser.h) on its receive context (SocketRecvData, src/defs.h).
//
// A pointer is a pair of an array and a position in it.  The parser works directly in the input
// buffer as long as whole messages arrive; an unfinished message is carried over to the next call
// by one of two accumulation strategies.
module MessageParser {
  import opened Messages
  import opened Arith
  import opened Framing

  datatype Strategy = InPlace | Buffered

  /** What a handler does to the header of the message it was given: the server turns a request
      into a reply, the client's integrity check turns a reply back into a request. */
  datatype Rewrite = Keep | MakeServer | MakeClient

  /** The flags before and after: only the client flag may change. */
  predicate Rewritten(rewrite: Rewrite, before: byte, after: byte) {
    && (HasBit(after, Client) <==> rewrite == MakeClient || (rewrite == Keep && HasBit(before, Client)))
    && (HasBit(after, Pong) <==> HasBit(before, Pong)) && (HasBit(after, Warmup) <==> HasBit(before, Warmup))
    && after - after % 8 == before - before % 8
  }

  lemma CutStream(p: seq<byte>, unread: seq<byte>, n: nat)
    requires n <= |unread|
    ensures p + unread == (p + unread[..n]) + unread[n..]
    ensures [] + unread == unread
  {
  }

  lemma AtPrefix(a: array<byte>, p: nat, s: seq<byte>, n: nat)
    requires At(a, p, s) && n <= |s|
    ensures At(a, p, s[..n])
  {
  }

  lemma AtJoin(a: array<byte>, p: nat, s: seq<byte>, t: seq<byte>)
    requires At(a, p, s) && At(a, p + |s|, t)
    ensures At(a, p, s + t)
  {
  }

  /** Bytes in memory that are not written stay where they are. */
  lemma AtKept(a: array<byte>, was: seq<byte>, p: nat, s: seq<byte>, n: nat)
    requires |was| == a.Length && p + |s| <= |was| && was[p..p + |s|] == s && n <= |s|
    requires forall i | p + n <= i < p + |s| :: a[i] == was[i]
    ensures At(a, p + n, s[n..])
  {
    assert a[p + n..p + |s|] == was[p + n..p + |s|];
  }

  lemma AtSame(a: array<byte>, was: seq<byte>, p: nat, s: seq<byte>)
    requires |was| == a.Length && p + |s| <= |was| && was[p..p + |s|] == s
    requires forall i | p <= i < p + |s| :: a[i] == was[i]
    ensures At(a, p, s)
  {
    assert a[p..p + |s|] == was[p..p + |s|];
  }

  lemma AtWas(a: array<byte>, p: nat, s: seq<byte>)
    requires At(a, p, s)
    ensures p + |s| <= a.Length && a[..][p..p + |s|] == s
  {
  }

  /** The declared length of the unfinished message, once its header is there. */
  ghost function Declared(p: seq<byte>): nat {
    if |p| >= EFFECTIVE_SIZE then NetLength(p) else 0
  }

  /** There is room for the next read, of up to size bytes, of a message that starts at pos and of
      which offset bytes are there.  In place, reads normally end within the first maxSize bytes;
      the end moves once to the end of the unfinished header and once to the end of the unfinished
      message. */
  ghost predicate Fits(strategy: Strategy, maxSize: nat, msgMax: nat, pos: nat, offset: nat, size: int, declared: nat) {
    var end := pos + offset + size;
    && size > 0
    && match strategy
       case Buffered => offset + size <= Max(maxSize, msgMax)
       case InPlace =>
         && pos < maxSize
         && (|| end <= maxSize
             || (offset < EFFECTIVE_SIZE && end == pos + EFFECTIVE_SIZE)
             || (offset >= EFFECTIVE_SIZE && end == pos + declared))
  }

  /** cur_size after a chunk that leaves the message unfinished with total bytes. */
  function NextSize(size: int, nbytes: nat, total: nat, declared: nat, msgMax: nat): int {
    var left := size - nbytes;
    if total < EFFECTIVE_SIZE then
      if left < EFFECTIVE_SIZE then EFFECTIVE_SIZE - total else left
    else
      if left < msgMax then declared - total else left
  }

  /** The next read is always large enough for the rest of the header, or of the message once its
      length is known. */
  lemma NextReadSuffices(size: int, nbytes: nat, total: nat, declared: nat, msgMax: nat)
    requires total < EFFECTIVE_SIZE || total < declared <= msgMax
    ensures total + NextSize(size, nbytes, total, declared, msgMax) >=
            if total < EFFECTIVE_SIZE then EFFECTIVE_SIZE else declared
    ensures NextSize(size, nbytes, total, declared, msgMax) > 0
  {
  }

  /** How much process_chunk takes of nbytes bytes, offset bytes of a message of that declared length
      being there already, once the header is complete. */
  function Consumed(offset: nat, nbytes: nat, length: nat, msgMax: nat): int {
    if length > msgMax || offset + nbytes < length then nbytes else length - offset
  }

  /** The header check lets runts pass, and then the parser may stand still: it gets ahead however
      the header was split exactly if the declared length is not below the size of a header. */
  lemma {:induction false} ProgressExactly(length: nat, msgMax: nat)
    requires EFFECTIVE_SIZE <= msgMax
    ensures (forall offset: nat, nbytes: nat | offset < EFFECTIVE_SIZE <= offset + nbytes ::
               Consumed(offset, nbytes, length, msgMax) > 0)
            <==> EFFECTIVE_SIZE <= length
  {
    if length < EFFECTIVE_SIZE {
      assert Consumed(EFFECTIVE_SIZE - 1, 1, length, msgMax) <= 0;
    }
  }

  /** Room while len bytes of a buffer are left to process. */
  ghost predicate Room(strategy: Strategy, maxSize: nat, msgMax: nat, pos: nat, offset: nat, size: int, declared: nat,
                       len: nat) {
    && EFFECTIVE_SIZE <= maxSize
    && (strategy.InPlace? && len > 0 ==> len <= size)
    && if offset > 0 then
         Fits(strategy, maxSize, msgMax, pos, offset, size, declared)
       else
         && size <= Max(maxSize, msgMax)
         && (len == 0 ==> size == maxSize)
         && (strategy.InPlace? && len > 0 ==> pos + size <= maxSize)
  }

  /** The size of the next chunk. */
  ghost predicate ChunkOf(strategy: Strategy, offset: nat, size: int, len: nat, chunk: nat) {
    && 0 < chunk <= len
    && (strategy.InPlace? || offset == 0 ==> chunk == len)
    && (offset > 0 ==> chunk <= size)
  }

  /** The loop of process_buffer: the message being read lies at arr[pos..], cur bytes of it; that is
      at src[b..] (direct) or in the accumulation buffer.  offset bytes after b have been taken and
      len are left. */
  ghost predicate Place(strategy: Strategy, buf: array<byte>, src: array<byte>, arr: array<byte>, pos: nat, cur: nat,
                        b: nat, offset: nat, len: nat, direct: bool) {
    && pos + cur <= arr.Length
    && b + offset + len <= src.Length
    && (direct ==> arr == src && pos == b && cur == offset && (len > 0 ==> offset == 0))
    && (!direct ==> arr == buf && cur > 0)
    && match strategy
       case InPlace => src == buf && (!direct ==> pos + cur == b + offset)
       case Buffered => src != buf && (!direct ==> pos == 0)
  }

  /** The message of k bytes at arr[pos..] ends just before src[b..]; offset as in process_buffer. */
  ghost predicate EndsAt(strategy: Strategy, buf: array<byte>, src: array<byte>, arr: array<byte>, pos: nat, k: nat,
                         b: nat, offset: nat, direct: bool) {
    && (direct ==> arr == src && offset == k)
    && (!direct ==> arr == buf)
    && (arr == src ==> pos + k == b)
    && match strategy
       case InPlace => src == buf
       case Buffered => src != buf
  }

  /** Where the next message is, after the handler has seen the one that ends before src[b..]. */
  lemma NextPlace(strategy: Strategy, maxSize: nat, msgMax: nat, buf: array<byte>, src: array<byte>, arr: array<byte>,
                  pos: nat, k: nat, b: nat, offset: nat, direct: bool, size: int, len: nat)
    requires EndsAt(strategy, buf, src, arr, pos, k, b, offset, direct) && b + len <= src.Length
    requires Room(strategy, maxSize, msgMax, pos + k, 0, size, 0, len)
    ensures direct ==> arr == src && pos + offset == b
    ensures arr == src ==> pos + k == b
    ensures Place(strategy, buf, src, src, b, 0, b, 0, len, true)
    ensures Room(strategy, maxSize, msgMax, b, 0, size, 0, len)
  {
  }

  lemma PlaceAfter(strategy: Strategy, buf: array<byte>, src: array<byte>, arr: array<byte>, pos: nat, cur: nat,
                   b: nat, offset: nat, len: nat, direct: bool, size: int, chunk: nat, n: nat)
    requires Place(strategy, buf, src, arr, pos, cur, b, offset, len, direct)
    requires ChunkOf(strategy, cur, size, len, chunk) && pos + cur + chunk <= arr.Length && n <= chunk
    ensures arr == src ==> b + offset == pos + cur
    ensures n == chunk ==> Place(strategy, buf, src, arr, pos, cur + n, b, offset + n, len - n, direct)
    ensures EndsAt(strategy, buf, src, arr, pos, cur + n, b + offset + n, offset + n, direct)
  {
  }

  /** Room is kept by a chunk that leaves the message unfinished: the extended window never passes
      what the strategy has. */
  lemma RoomPending(strategy: Strategy, maxSize: nat, msgMax: nat, pos: nat, offset: nat, size: int, declared: nat,
                    len: nat, chunk: nat, declared': nat)
    requires Room(strategy, maxSize, msgMax, pos, offset, size, declared, len)
    requires ChunkOf(strategy, offset, size, len, chunk)
    requires offset >= EFFECTIVE_SIZE ==> declared == declared'
    requires offset + chunk >= EFFECTIVE_SIZE ==> offset + chunk < declared' <= msgMax
    ensures Room(strategy, maxSize, msgMax, pos, offset + chunk,
                 NextSize(size, chunk, offset + chunk, declared', msgMax), declared', len - chunk)
  {
  }

  /** Room is kept by a chunk that finishes the message: no read that was extended for one message
      can hold bytes of the next. */
  lemma RoomDone(strategy: Strategy, maxSize: nat, msgMax: nat, pos: nat, offset: nat, size: int, declared: nat,
                 len: nat, chunk: nat, declared': nat, n: nat)
    requires Room(strategy, maxSize, msgMax, pos, offset, size, declared, len)
    requires ChunkOf(strategy, offset, size, len, chunk)
    requires offset >= EFFECTIVE_SIZE ==> declared == declared'
    requires EFFECTIVE_SIZE <= declared' && offset < declared' <= offset + chunk && n == declared' - offset
    ensures Room(strategy, maxSize, msgMax, pos + offset + n, 0, if n == chunk then maxSize else size - n, 0, len - n)
  {
  }

  class Receiver {
    const strategy: Strategy
    const msgMax: nat           // Message::ms_maxSize
    const accept: Verdicts      // the handler's answers
    const rewrite: Rewrite

    const buf: array<byte>
    const maxSize: nat
    var curArr: array<byte>     // cur_addr: start of the current message
    var curPos: nat
    var curOffset: nat          // bytes of the current message received so far
    var curSize: int            // most bytes the next read may deliver

    var msgArr: array<byte>     // m_addr of the reply message
    var msgPos: nat
    var log: seq<Event>         // calls of the handler

    ghost var pending: seq<byte>   // the received bytes of the unfinished message, as they were sent

    ghost predicate Sized()
      reads this
    {
      && EFFECTIVE_SIZE <= maxSize
      && match strategy
         case InPlace => buf.Length == 2 * maxSize && msgMax <= maxSize + 1
         case Buffered => maxSize <= buf.Length && msgMax <= buf.Length
    }

    /** The unfinished message lies at cur_addr, its header converted if it is complete. */
    ghost predicate Holds()
      reads this, curArr
    {
      curOffset == |pending| && At(curArr, curPos, Converted(pending)) && Unfinished(pending, msgMax)
    }

    /** What holds between two calls of process_buffer. */
    ghost predicate Valid()
      reads this, curArr
    {
      && Sized() && Holds()
      && (strategy.InPlace? ==> curArr == buf)
      && if curOffset == 0 then
           && curSize == maxSize
           && (strategy.InPlace? ==> curPos == 0)
         else
           && curArr == buf
           && (strategy.Buffered? ==> curPos == 0)
           && Fits(strategy, maxSize, msgMax, curPos, curOffset, curSize, Declared(pending))
    }

    constructor (strategy: Strategy, maxSize: nat, msgMax: nat, accept: Verdicts, rewrite: Rewrite)
      requires EFFECTIVE_SIZE <= maxSize && msgMax <= maxSize + 1
      ensures Valid() && fresh(buf) && pending == [] && log == []
      ensures this.strategy == strategy && this.maxSize == maxSize && this.msgMax == msgMax
      ensures this.accept == accept && this.rewrite == rewrite
    {
      this.strategy, this.maxSize, this.msgMax := strategy, maxSize, msgMax;
      this.accept, this.rewrite := accept, rewrite;
      var memory := new byte[2 * maxSize];
      buf, curArr, curPos, curOffset, curSize := memory, memory, 0, 0, maxSize;
      msgArr, msgPos, log, pending := memory, 0, [], [];
    }

    /** In every state between two calls the unfinished message of the in-place strategy starts
        within the first maxSize bytes, and the next read ends within the doubled buffer. */
    lemma InPlaceBound()
      requires Valid() && strategy.InPlace?
      ensures curPos < maxSize
      ensures 0 < curSize && curPos + curOffset + curSize <= buf.Length
    {
      hide SwapHeader, Length;
    }

    // --- process_chunk ---

    function GetLength(): nat
      reads this, msgArr
      requires msgPos + EFFECTIVE_SIZE <= msgArr.Length
    {
      Length(msgArr[msgPos..msgPos + EFFECTIVE_SIZE])
    }

    lemma GetLengthIs(s: seq<byte>)
      requires |s| >= EFFECTIVE_SIZE && At(msgArr, msgPos, Converted(s))
      ensures msgPos + EFFECTIVE_SIZE <= msgArr.Length && GetLength() == NetLength(s)
    {
      hide SwapHeader, Length;
      assert msgArr[msgPos..msgPos + |s|][..EFFECTIVE_SIZE] == msgArr[msgPos..msgPos + EFFECTIVE_SIZE];
      LengthPrefix(SwapHeader(s));
    }

    /** process_chunk once the header is complete: point the message at it, and convert it unless
        that was done when its last byte arrived earlier. */
    method MatchHeader(ghost c: seq<byte>)
      requires curOffset == |pending| && EFFECTIVE_SIZE <= curOffset + |c|
      requires At(curArr, curPos, Converted(pending)) && At(curArr, curPos + curOffset, c)
      modifies this`msgArr, this`msgPos, curArr
      ensures msgArr == curArr && msgPos == curPos && At(curArr, curPos, Converted(pending + c))
      ensures forall i | curPos + EFFECTIVE_SIZE <= i < curArr.Length :: curArr[i] == old(curArr[i])
    {
      hide SwapHeader, At;
      AtJoin(curArr, curPos, Converted(pending), c);
      msgArr, msgPos := curArr, curPos;
      if curOffset < EFFECTIVE_SIZE {
        SwapHeaderAt(curArr, curPos, pending + c);
      } else {
        SwapAppend(pending, c);
      }
    }

    /** process_chunk while the header is not complete. */
    method AwaitHeader(nbytes: nat)
      requires curOffset + nbytes < EFFECTIVE_SIZE
      modifies this`curOffset, this`curSize
      ensures curOffset == old(curOffset) + nbytes
      ensures forall declared: nat :: curSize == NextSize(old(curSize), nbytes, curOffset, declared, msgMax)
    {
      curSize := curSize - nbytes;
      curOffset := curOffset + nbytes;
      if curSize < EFFECTIVE_SIZE {
        curSize := EFFECTIVE_SIZE - curOffset;
      }
    }

    /** process_chunk once the length is known: move on by nbytes. */
    method Advance(nbytes: nat, length: nat) returns (nprocessed: int)
      modifies this`curOffset, this`curSize
      ensures nprocessed == Consumed(old(curOffset), nbytes, length, msgMax)
      ensures if length > msgMax then
                curOffset == 0 && curSize == maxSize
              else if old(curOffset) + nbytes < length then
                && curOffset == old(curOffset) + nbytes
                && (curOffset >= EFFECTIVE_SIZE ==>
                      curSize == NextSize(old(curSize), nbytes, curOffset, length, msgMax))
              else
                && curOffset == 0
                && curSize == if nprocessed == nbytes then maxSize else old(curSize) - nprocessed
    {
      if length > msgMax {
        nprocessed := nbytes;
        curSize := maxSize;
        curOffset := 0;
        return;
      }
      if curOffset + nbytes < length {
        curSize := curSize - nbytes;
        curOffset := curOffset + nbytes;
        nprocessed := nbytes;
        if curSize < msgMax {
          curSize := length - curOffset;
        }
        return;
      }
      nprocessed := length - curOffset;
      if nbytes - nprocessed != 0 {
        curSize := curSize - (length - curOffset);
        curOffset := 0;
      } else {
        curSize := maxSize;
        curOffset := 0;
      }
    }

    lemma PendingLength(s: seq<byte>)
      requires Unfinished(pending, msgMax) && pending <= s
      ensures |pending| < EFFECTIVE_SIZE || |pending| < NetLength(s)
    {
      hide SwapHeader, Length;
      if |pending| >= EFFECTIVE_SIZE {
        NetLengthPrefix(pending, s);
      }
    }

    /** process_chunk: takes the nbytes new bytes c, which already follow the received part of the
        current message in memory.  Of a runt it takes what its declared length leaves, which may be
        nothing, or less. */
    method ProcessChunk(nbytes: nat, ghost c: seq<byte>) returns (nprocessed: int)
      requires |c| == nbytes > 0 && Holds() && At(curArr, curPos + curOffset, c)
      modifies this`curOffset, this`curSize, this`msgArr, this`msgPos, this`pending, curArr
      ensures forall i | curPos + EFFECTIVE_SIZE <= i < curArr.Length :: curArr[i] == old(curArr[i])
      ensures At(curArr, curPos, Converted(old(pending) + c))
      ensures var s := old(pending) + c;
              if |s| < EFFECTIVE_SIZE then
                nprocessed == nbytes && forall i | 0 <= i < curArr.Length :: curArr[i] == old(curArr[i])
              else nprocessed == Consumed(old(curOffset), nbytes, NetLength(s), msgMax)
      ensures var s := old(pending) + c;
              if Unfinished(s, msgMax) then
                && nprocessed == nbytes && pending == s && curOffset == |s|
                && curSize == NextSize(old(curSize), nbytes, |s|, Declared(s), msgMax)
              else
                && |s| >= EFFECTIVE_SIZE
                && pending == [] && curOffset == 0 && msgArr == curArr && msgPos == curPos
                && if NetLength(s) > msgMax then
                     nprocessed == nbytes && curSize == maxSize
                   else
                     && NetLength(s) == old(curOffset) + nprocessed <= |s|
                     && curSize == if nprocessed == nbytes then maxSize else old(curSize) - nprocessed
    {
      hide SwapHeader, Length, Receiver.GetLength, NextSize, At, Converted;
      ghost var s := pending + c;
      PendingLength(s);
      if curOffset + nbytes < EFFECTIVE_SIZE {
        ShortHeld(c);
        AwaitHeader(nbytes);
        pending := s;
        return nbytes;
      }
      MatchHeader(c);
      GetLengthIs(s);
      nprocessed := Advance(nbytes, GetLength());
      pending := if curOffset == 0 then [] else s;
    }

    /** process_chunk in a stream without runts: it always gets ahead. */
    method TakeBytes(nbytes: nat, ghost c: seq<byte>) returns (nprocessed: nat)
      requires |c| == nbytes > 0 && Holds() && At(curArr, curPos + curOffset, c)
      requires NoRunt(pending + c, msgMax)
      modifies this`curOffset, this`curSize, this`msgArr, this`msgPos, this`pending, curArr
      ensures 0 < nprocessed <= nbytes
      ensures forall i | curPos + old(curOffset) + nprocessed <= i < curArr.Length :: curArr[i] == old(curArr[i])
      ensures At(curArr, curPos, Converted(old(pending) + c))
      ensures var s := old(pending) + c;
              if Unfinished(s, msgMax) then
                && nprocessed == nbytes && pending == s && curOffset == |s|
                && curSize == NextSize(old(curSize), nbytes, |s|, Declared(s), msgMax)
              else
                && |s| >= EFFECTIVE_SIZE
                && pending == [] && curOffset == 0 && msgArr == curArr && msgPos == curPos
                && if NetLength(s) > msgMax then
                     nprocessed == nbytes && curSize == maxSize
                   else
                     && EFFECTIVE_SIZE <= NetLength(s) == old(curOffset) + nprocessed
                     && curSize == if nprocessed == nbytes then maxSize else old(curSize) - nprocessed
    {
      hide SwapHeader, Length, NoRunt, NextSize, At, Converted;
      ghost var s := pending + c;
      NoRuntHeader(s, msgMax);
      PendingLength(s);
      nprocessed := ProcessChunk(nbytes, c);
    }

    /** What stalls the loop: no message is pending, and the header at hand declares length 0. */
    ghost predicate Stalled(nbytes: nat)
      reads this, curArr
    {
      && Holds() && pending == [] && curPos + nbytes <= curArr.Length
      && DeclaresNothing(curArr[curPos..curPos + nbytes])
    }

    /** Such a header, complete in one piece: a pass of the loop calls the handler, takes nothing, and
        finds such a header again. */
    method StalledPass(nbytes: nat) returns (taken: int)
      requires Stalled(nbytes) && accept(|log|)
      modifies this`curOffset, this`curSize, this`msgArr, this`msgPos, this`pending, this`log, curArr
      ensures taken == 0 && |log| == |old(log)| + 1
      ensures Stalled(nbytes) && curSize == old(curSize)
    {
      hide SwapHeader, FromLE, At, NetLength, Unfinished, DeclaresNothing, Receiver.GetLength, Converted, NextSize,
           Receiver.Stalled;
      FromStalled(nbytes);
      ghost var c := curArr[curPos..curPos + nbytes];
      assert [] + c == c;
      Whereabouts(curArr, curPos, c);
      NothingDeclared(c);
      taken := ProcessChunk(nbytes, c);
      GetLengthIs(c);
      IsThere(curArr, curPos, Converted(c));
      ghost var was := curArr[..];
      var ok := HandleMessage();
      StillNothing(curArr, was, curPos, Converted(c));
      ToStalled(nbytes);
    }

    lemma FromStalled(nbytes: nat)
      requires Stalled(nbytes)
      ensures Holds() && pending == [] && curPos + nbytes <= curArr.Length
      ensures DeclaresNothing(curArr[curPos..curPos + nbytes])
    {
    }

    lemma ToStalled(nbytes: nat)
      requires curOffset == 0 && pending == [] && curPos + nbytes <= curArr.Length
      requires DeclaresNothing(curArr[curPos..curPos + nbytes])
      ensures Stalled(nbytes)
    {
    }

    /** So the loop goes on for ever, as long as the handler does not end it. */
    method Stall(nbytes: nat, passes: nat) returns (taken: int)
      requires Stalled(nbytes) && AcceptsAll(accept)
      modifies this`curOffset, this`curSize, this`msgArr, this`msgPos, this`pending, this`log, curArr
      ensures taken == 0 && |log| == |old(log)| + passes
      ensures Stalled(nbytes) && curSize == old(curSize)
    {
      hide Receiver.Stalled;
      taken := 0;
      for k := 0 to passes
        invariant Stalled(nbytes) && taken == 0 && |log| == |old(log)| + k && curSize == old(curSize)
      {
        var n := StalledPass(nbytes);
        taken := taken + n;
      }
    }

    static lemma Whereabouts(a: array<byte>, p: nat, c: seq<byte>)
      requires p + |c| <= a.Length && a[p..p + |c|] == c && DeclaresNothing(c)
      ensures |c| >= EFFECTIVE_SIZE && At(a, p, c) && DeclaresNothing(Converted(c))
      ensures forall max: nat :: !Unfinished(c, max)
    {
      NothingDeclared(c);
    }

    static lemma IsThere(a: array<byte>, p: nat, c: seq<byte>)
      requires At(a, p, c)
      ensures p + |c| <= a.Length && a[..][p..p + |c|] == c
    {
    }

    /** The handler may change the flags, but not the length. */
    static lemma StillNothing(a: array<byte>, was: seq<byte>, p: nat, s: seq<byte>)
      requires |was| == a.Length && p + |s| <= |was| && was[p..p + |s|] == s && DeclaresNothing(s)
      requires forall i | 0 <= i < a.Length && i != p + 8 :: a[i] == was[i]
      ensures DeclaresNothing(a[p..p + |s|])
    {
      var t := a[p..p + |s|];
      assert forall i | 10 <= i < 14 :: t[i] == a[p + i] == was[p + i] == s[i];
    }

    lemma ShortHeld(c: seq<byte>)
      requires At(curArr, curPos, Converted(pending)) && At(curArr, curPos + |pending|, c)
      requires |pending + c| < EFFECTIVE_SIZE
      ensures At(curArr, curPos, Converted(pending + c))
    {
      AtJoin(curArr, curPos, pending, c);
    }

    // --- the accumulation strategies ---

    method ResetReadBuffer()
      modifies this`curArr, this`curPos
      ensures strategy.InPlace? ==> curArr == buf && curPos == 0
      ensures strategy.Buffered? ==> curArr == old(curArr) && curPos == old(curPos)
    {
      if strategy.InPlace? {
        curArr, curPos := buf, 0;
      }
    }

    /** The current message, the received part s of which lies at src[from..], is left unfinished. */
    method StartAccumulation(src: array<byte>, from: nat, size: nat, ghost s: seq<byte>)
      requires |s| == size && At(src, from, s)
      requires strategy.InPlace? ==> curArr == src && curPos == from   // its assertion
      requires strategy.Buffered? ==> src != buf && size <= buf.Length
      modifies this`curArr, this`curPos, buf
      ensures strategy.InPlace? ==> curArr == src && curPos == from
      ensures strategy.Buffered? ==> curArr == buf && curPos == 0
      ensures At(curArr, curPos, s)
    {
      if strategy.Buffered? {
        curArr, curPos := buf, 0;
        Copy(src, from, buf, 0, size);
      }
    }

    /** The first size of the bytes unread at src[from..] belong to the current message, of which the
        bytes held are there. */
    method AccumulateMore(src: array<byte>, from: nat, size: nat, ghost unread: seq<byte>, ghost held: seq<byte>)
      requires size <= |unread| && At(src, from, unread) && curPos + curOffset + size <= curArr.Length
      requires |held| == curOffset && At(curArr, curPos, held)
      requires strategy.InPlace? ==> curArr == src && curPos + curOffset == from   // its assertion
      requires strategy.Buffered? ==> curArr != src
      modifies curArr
      ensures At(curArr, curPos + curOffset, unread[..size])
      ensures At(curArr, curPos, held) && At(src, from, unread)
    {
      hide At;
      AtPrefix(src, from, unread, size);
      if strategy.Buffered? {
        AtWas(curArr, curPos, held);
        ghost var was := curArr[..];
        Copy(src, from, curArr, curPos + curOffset, size);
        AtSame(curArr, was, curPos, held);
        AtCopied(src, from, curArr, curPos + curOffset, unread[..size]);
      }
    }

    static lemma AtCopied(src: array<byte>, from: nat, dst: array<byte>, to: nat, s: seq<byte>)
      requires At(src, from, s) && to + |s| <= dst.Length
      requires from + |s| <= src.Length && dst[to..to + |s|] == src[from..from + |s|]
      ensures At(dst, to, s)
    {
    }

    static method Copy(src: array<byte>, from: nat, dst: array<byte>, to: nat, size: nat)
      requires src != dst && from + size <= src.Length && to + size <= dst.Length
      modifies dst
      ensures dst[to..to + size] == src[from..from + size]
      ensures forall i | 0 <= i < to || to + size <= i < dst.Length :: dst[i] == old(dst[i])
    {
      forall i | to <= i < to + size {
        dst[i] := src[from + (i - to)];
      }
    }

    // --- the handler ---

    /** callback.handle_message: sees the message in host order, may turn its client flag, and says
        whether to go on. */
    method HandleMessage() returns (ok: bool)
      requires msgPos + EFFECTIVE_SIZE <= msgArr.Length
      requires GetLength() <= msgMax ==> msgPos + GetLength() <= msgArr.Length
      modifies this`log, msgArr
      ensures old(GetLength()) > msgMax ==> !ok && log == old(log) + [Oversized]
      ensures old(GetLength()) <= msgMax ==>
                && ok == accept(|old(log)|)
                && log == old(log) + [Whole(old(msgArr[msgPos..msgPos + GetLength()]))]
      ensures forall i | 0 <= i < msgArr.Length && i != msgPos + 8 :: msgArr[i] == old(msgArr[i])
      ensures old(GetLength()) <= msgMax ==>
                Rewritten(rewrite, old(msgArr[msgPos + 8]), msgArr[msgPos + 8])
    {
      if GetLength() > msgMax {
        log := log + [Oversized];
        return false;
      }
      ok := accept(|log|);
      log := log + [Whole(msgArr[msgPos..msgPos + GetLength()])];
      match rewrite
      case Keep =>
      case MakeServer => msgArr[msgPos + 8] := ClearBit(msgArr[msgPos + 8], Client);
      case MakeClient => msgArr[msgPos + 8] := SetBit(msgArr[msgPos + 8], Client);
    }

    // --- process_buffer ---

    /** What process_buffer relies on: the receive contract of the strategy. */
    ghost predicate Readable(src: array<byte>, start: nat, len: nat)
      reads this
    {
      && start + len <= src.Length
      && match strategy
         case InPlace => src == buf && start == curPos + curOffset && len <= curSize
         case Buffered => src != buf
    }

    /** Inside process_buffer, with the bytes unread still to be looked at. */
    ghost predicate Reading(src: array<byte>, b: nat, offset: nat, direct: bool, unread: seq<byte>)
      reads this, curArr, src
    {
      && Sized() && Holds()
      && At(src, b + offset, unread)
      && NoRunt(pending + unread, msgMax)
      && Place(strategy, buf, src, curArr, curPos, curOffset, b, offset, |unread|, direct)
      && Room(strategy, maxSize, msgMax, curPos, curOffset, curSize, Declared(pending), |unread|)
    }

    lemma ChunkFits(src: array<byte>, b: nat, offset: nat, direct: bool, unread: seq<byte>)
      requires Reading(src, b, offset, direct, unread) && unread != []
      ensures var chunk := if direct then |unread| else if curSize < |unread| then curSize else |unread|;
              && ChunkOf(strategy, curOffset, curSize, |unread|, chunk) && curPos + curOffset + chunk <= curArr.Length
              && 0 < chunk <= |unread| && At(src, b + offset, unread[..chunk])
      ensures strategy.InPlace? || direct ==> curArr == src && curPos + curOffset == b + offset
      ensures direct || curArr == buf
      ensures strategy.Buffered? ==> src != buf
    {
      hide SwapHeader, Length, NoRunt, Unfinished;
    }

    /** Fetches the next chunk behind the received part of the current message. */
    method FetchChunk(src: array<byte>, b: nat, offset: nat, direct: bool, len: nat, ghost unread: seq<byte>)
      returns (chunk: nat)
      requires Reading(src, b, offset, direct, unread) && |unread| == len > 0
      modifies curArr
      ensures Reading(src, b, offset, direct, unread) && 0 < chunk <= len
      ensures ChunkOf(strategy, curOffset, curSize, len, chunk) && curPos + curOffset + chunk <= curArr.Length
      ensures At(curArr, curPos + curOffset, unread[..chunk])
    {
      hide SwapHeader, Length, NoRunt, Unfinished, Room, Place, Converted, At, Declared, ChunkOf, Receiver.Reading;
      ChunkFits(src, b, offset, direct, unread);
      FromReading(src, b, offset, direct, unread);
      chunk := len;
      if !direct {
        chunk := if curSize < len then curSize else len;
        AccumulateMore(src, b + offset, chunk, unread, Converted(pending));
        StillReading(src, b, offset, direct, unread);
      }
    }

    lemma StillReading(src: array<byte>, b: nat, offset: nat, direct: bool, unread: seq<byte>)
      requires Sized() && Holds() && NoRunt(pending + unread, msgMax) && At(src, b + offset, unread)
      requires Place(strategy, buf, src, curArr, curPos, curOffset, b, offset, |unread|, direct)
      requires Room(strategy, maxSize, msgMax, curPos, curOffset, curSize, Declared(pending), |unread|)
      ensures Reading(src, b, offset, direct, unread)
    {
    }

    /** Room after the chunk that turned the received part p into s, n bytes of which were taken. */
    lemma RoomAfter(p: seq<byte>, s: seq<byte>, size: int, chunk: nat, len: nat, n: nat)
      requires p <= s && |s| == |p| + chunk && n <= len
      requires Unfinished(p, msgMax)
      requires Room(strategy, maxSize, msgMax, curPos, |p|, size, Declared(p), len)
      requires ChunkOf(strategy, |p|, size, len, chunk)
      requires Unfinished(s, msgMax) ==> n == chunk && curSize == NextSize(size, chunk, |s|, Declared(s), msgMax)
      requires !Unfinished(s, msgMax) ==> |s| >= EFFECTIVE_SIZE
      requires !Unfinished(s, msgMax) && NetLength(s) <= msgMax ==>
                 && EFFECTIVE_SIZE <= NetLength(s) == |p| + n <= |s| && 0 < n
                 && curSize == if n == chunk then maxSize else size - n
      ensures Unfinished(s, msgMax) ==>
                Room(strategy, maxSize, msgMax, curPos, |s|, curSize, Declared(s), len - n)
      ensures !Unfinished(s, msgMax) && NetLength(s) <= msgMax ==>
                Room(strategy, maxSize, msgMax, curPos + |p| + n, 0, curSize, 0, len - n)
    {
      hide SwapHeader, Length, NextSize, Room, Fits;
      if |p| >= EFFECTIVE_SIZE {
        NetLengthPrefix(p, s);
      }
      if Unfinished(s, msgMax) {
        RoomPending(strategy, maxSize, msgMax, curPos, |p|, size, Declared(p), len, chunk, Declared(s));
      } else if NetLength(s) <= msgMax {
        RoomDone(strategy, maxSize, msgMax, curPos, |p|, size, Declared(p), len, chunk, NetLength(s), n);
      }
    }

    /** The message at the head of p + unread, or its oversized header, has been taken up: it is
        ready for the handler.  Its last n bytes came from unread; the rest of that is at src[b..]. */
    ghost predicate Ready(src: array<byte>, b: nat, offset: nat, direct: bool, p: seq<byte>, unread: seq<byte>, n: nat)
      reads this, msgArr, src
    {
      var s := p + unread;
      && Sized() && pending == [] && curOffset == 0
      && msgArr == curArr && msgPos == curPos && EFFECTIVE_SIZE <= |s| && msgPos + EFFECTIVE_SIZE <= msgArr.Length
      && n <= |unread| && At(src, b, unread[n..]) && b + |unread| - n <= src.Length
      && EndsAt(strategy, buf, src, curArr, curPos, |p| + n, b, offset, direct)
      && NoRunt(s, msgMax)
      && GetLength() == NetLength(s)
      && (NetLength(s) <= msgMax ==>
            && EFFECTIVE_SIZE <= NetLength(s) == |p| + n
            && At(msgArr, msgPos, Converted(s[..|p| + n]))
            && Room(strategy, maxSize, msgMax, curPos + |p| + n, 0, curSize, 0, |unread| - n))
    }

    lemma ReadyAfter(p: seq<byte>, unread: seq<byte>, chunk: nat, n: nat)
      requires 0 < n <= chunk <= |unread|
      requires var s := p + unread[..chunk];
               && EFFECTIVE_SIZE <= |s| && At(msgArr, msgPos, Converted(s))
               && (NetLength(s) <= msgMax ==> EFFECTIVE_SIZE <= NetLength(s) == |p| + n)
      ensures var t := p + unread;
              && EFFECTIVE_SIZE <= |t| && msgPos + EFFECTIVE_SIZE <= msgArr.Length
              && GetLength() == NetLength(t) == NetLength(p + unread[..chunk])
              && (NetLength(t) <= msgMax ==> At(msgArr, msgPos, Converted(t[..|p| + n])))
    {
      hide SwapHeader, Length, Receiver.GetLength;
      var s, t := p + unread[..chunk], p + unread;
      assert s[..EFFECTIVE_SIZE] == t[..EFFECTIVE_SIZE];
      NetLengthPrefix(s, t);
      GetLengthIs(s);
      if NetLength(s) <= msgMax {
        assert t[..|p| + n] == s[..|p| + n];
        SwapPrefix(s, |p| + n);
        AtPrefix(msgArr, msgPos, Converted(s), |p| + n);
      }
    }

    /** One pass of the loop up to the handler: fetch a chunk and process it. */
    method TakeChunk(src: array<byte>, b: nat, offset: nat, direct: bool, len: nat, ghost unread: seq<byte>)
      returns (n: nat)
      requires Reading(src, b, offset, direct, unread) && |unread| == len > 0
      modifies this`curOffset, this`curSize, this`msgArr, this`msgPos, this`pending, curArr
      ensures 0 < n <= len
      ensures curOffset > 0 ==>
                pending == old(pending) + unread[..n] && Reading(src, b, offset + n, direct, unread[n..])
      ensures curOffset == 0 ==> Ready(src, b + offset + n, offset + n, direct, old(pending), unread, n)
    {
      hide SwapHeader, Length, NoRunt, Receiver.GetLength, Room, Unfinished, Declared, NetLength, Converted,
           At, Place, EndsAt, ChunkOf, Receiver.Reading, Receiver.Ready, Receiver.Holds, Receiver.Sized;
      ghost var p := pending;
      var chunk := FetchChunk(src, b, offset, direct, len, unread);
      FromReading(src, b, offset, direct, unread);
      CutStream(p, unread, chunk);
      NoRuntPrefix(p + unread[..chunk], unread[chunk..], msgMax);
      n := Digest(src, b, offset, direct, len, chunk, unread);
      if curOffset > 0 {
        ToReading(src, b, offset + n, direct, p, unread, n);
      } else {
        ReadyAfter(p, unread, chunk, n);
        ToReady(src, b + offset + n, offset + n, direct, p, unread, n);
      }
    }

    /** Processes the chunk that was fetched, and tells where that leaves the message. */
    method Digest(src: array<byte>, b: nat, offset: nat, direct: bool, len: nat, chunk: nat, ghost unread: seq<byte>)
      returns (n: nat)
      requires |unread| == len && Sized() && Holds() && At(src, b + offset, unread)
      requires Place(strategy, buf, src, curArr, curPos, curOffset, b, offset, len, direct)
      requires Room(strategy, maxSize, msgMax, curPos, curOffset, curSize, Declared(pending), len)
      requires ChunkOf(strategy, curOffset, curSize, len, chunk) && curPos + curOffset + chunk <= curArr.Length
      requires chunk <= len && At(curArr, curPos + curOffset, unread[..chunk])
      requires NoRunt(pending + unread[..chunk], msgMax)
      modifies this`curOffset, this`curSize, this`msgArr, this`msgPos, this`pending, curArr
      ensures 0 < n <= chunk && Sized() && At(src, b + offset + n, unread[n..])
      ensures At(curArr, curPos, Converted(old(pending) + unread[..chunk]))
      ensures curOffset > 0 ==>
                && Holds() && n == chunk && pending == old(pending) + unread[..n]
                && Place(strategy, buf, src, curArr, curPos, curOffset, b, offset + n, len - n, direct)
                && Room(strategy, maxSize, msgMax, curPos, curOffset, curSize, Declared(pending), len - n)
      ensures curOffset == 0 ==>
                var s := old(pending) + unread[..chunk];
                && |s| >= EFFECTIVE_SIZE && pending == [] && msgArr == curArr && msgPos == curPos
                && EndsAt(strategy, buf, src, curArr, curPos, |old(pending)| + n, b + offset + n, offset + n, direct)
                && (NetLength(s) <= msgMax ==>
                      && EFFECTIVE_SIZE <= NetLength(s) == |old(pending)| + n
                      && Room(strategy, maxSize, msgMax, curPos + |old(pending)| + n, 0, curSize, 0, len - n))
    {
      hide SwapHeader, Length, NoRunt, NextSize, Room, Fits, Unfinished, Declared, NetLength, Converted, At, Place,
           EndsAt;
      ghost var p := pending;
      AtWas(src, b + offset, unread);
      ghost var was := src[..];
      n := TakeBytes(chunk, unread[..chunk]);
      PlaceAfter(strategy, buf, src, curArr, curPos, |p|, b, offset, len, direct, old(curSize), chunk, n);
      AtKept(src, was, b + offset, unread, n);
      RoomAfter(p, p + unread[..chunk], old(curSize), chunk, len, n);
    }

    /** What Reading says... */
    lemma FromReading(src: array<byte>, b: nat, offset: nat, direct: bool, unread: seq<byte>)
      requires Reading(src, b, offset, direct, unread)
      ensures Sized() && Holds() && At(src, b + offset, unread) && NoRunt(pending + unread, msgMax)
      ensures Place(strategy, buf, src, curArr, curPos, curOffset, b, offset, |unread|, direct)
      ensures Room(strategy, maxSize, msgMax, curPos, curOffset, curSize, Declared(pending), |unread|)
    {
    }

    /** ... and what it takes. */
    lemma ToReading(src: array<byte>, b: nat, offset: nat, direct: bool, p: seq<byte>, unread: seq<byte>, n: nat)
      requires Sized() && Holds() && NoRunt(p + unread, msgMax) && n <= |unread| && pending == p + unread[..n]
      requires At(src, b + offset, unread[n..])
      requires Place(strategy, buf, src, curArr, curPos, curOffset, b, offset, |unread| - n, direct)
      requires Room(strategy, maxSize, msgMax, curPos, curOffset, curSize, Declared(pending), |unread| - n)
      ensures Reading(src, b, offset, direct, unread[n..])
    {
      hide NoRunt, Place, Room, Declared, Converted, Unfinished;
      CutStream(p, unread, n);
      StillReading(src, b, offset, direct, unread[n..]);
    }

    lemma ToReady(src: array<byte>, b: nat, offset: nat, direct: bool, p: seq<byte>, unread: seq<byte>, n: nat)
      requires Sized() && pending == [] && curOffset == 0 && msgArr == curArr && msgPos == curPos
      requires n <= |unread| && At(src, b, unread[n..]) && NoRunt(p + unread, msgMax)
      requires EFFECTIVE_SIZE <= |p + unread| && msgPos + EFFECTIVE_SIZE <= msgArr.Length
      requires EndsAt(strategy, buf, src, curArr, curPos, |p| + n, b, offset, direct)
      requires GetLength() == NetLength(p + unread)
      requires NetLength(p + unread) <= msgMax ==>
                 && EFFECTIVE_SIZE <= NetLength(p + unread) == |p| + n
                 && At(msgArr, msgPos, Converted((p + unread)[..|p| + n]))
                 && Room(strategy, maxSize, msgMax, curPos + |p| + n, 0, curSize, 0, |unread| - n)
      ensures Ready(src, b, offset, direct, p, unread, n)
    {
      hide NoRunt, Room, EndsAt, Receiver.GetLength, NetLength, Converted;
    }

    /** The handler call the stream p + unread demands next, and what it leaves to do. */
    lemma ReadyIsNext(src: array<byte>, b: nat, offset: nat, direct: bool, p: seq<byte>, unread: seq<byte>, n: nat)
      requires Ready(src, b, offset, direct, p, unread, n)
      ensures GetLength() > msgMax ==>
                Resumed(log, p + unread, msgMax, accept) == Served(log + [Oversized], false, [])
      ensures GetLength() <= msgMax ==>
                && EFFECTIVE_SIZE <= GetLength() == |p| + n && msgPos + GetLength() <= msgArr.Length
                && NoRunt(unread[n..], msgMax)
                && Resumed(log, p + unread, msgMax, accept) ==
                   var log' := log + [Whole(msgArr[msgPos..msgPos + GetLength()])];
                   if accept(|log|) then Resumed(log', unread[n..], msgMax, accept) else Served(log', false, [])
    {
      hide SwapHeader, Length, NoRunt, Resumed, Receiver.GetLength, Room, EndsAt;
      var s := p + unread;
      ResumedEnds(log, s, msgMax, accept);
      if NetLength(s) <= msgMax {
        var m := s[..|p| + n];
        assert s == m + unread[n..];
        NetLengthPrefix(m, s);
        ResumedCons(log, m, unread[n..], msgMax, accept);
      }
    }

    /** Calls the handler, then points at the next message, which starts at src[b..], directly in
        the input. */
    method HandOver(src: array<byte>, b: nat, offset: nat, direct: bool, ghost p: seq<byte>, ghost unread: seq<byte>,
                    ghost n: nat)
      returns (ok: bool)
      requires Ready(src, b, offset, direct, p, unread, n)
      modifies this`curArr, this`curPos, this`log, curArr
      ensures ok ==>
                && Reading(src, b, 0, true, unread[n..]) && pending == []
                && Resumed(log, unread[n..], msgMax, accept) == Resumed(old(log), p + unread, msgMax, accept)
      ensures !ok ==> var r := Resumed(old(log), p + unread, msgMax, accept); log == r.events && !r.ok
    {
      hide SwapHeader, Length, NoRunt, Resumed, Receiver.GetLength, Room, EndsAt, At, NetLength, Converted;
      ReadyIsNext(src, b, offset, direct, p, unread, n);
      AtWas(src, b, unread[n..]);
      ghost var was := src[..];
      ok := HandleMessage();
      if ok {
        NextPlace(strategy, maxSize, msgMax, buf, src, curArr, curPos, |p| + n, b, offset, direct, curSize,
                  |unread| - n);
        AtSame(src, was, b, unread[n..]);
        if direct {
          curPos := curPos + offset;
        } else {
          curArr, curPos := src, b;
        }
        StartReading(src, b, unread[n..]);
      }
    }

    lemma StartReading(src: array<byte>, b: nat, unread: seq<byte>)
      requires Sized() && pending == [] && curOffset == 0 && curPos <= curArr.Length
      requires At(src, b, unread) && NoRunt(unread, msgMax)
      requires Place(strategy, buf, src, curArr, curPos, 0, b, 0, |unread|, true)
      requires Room(strategy, maxSize, msgMax, curPos, 0, curSize, 0, |unread|)
      ensures Reading(src, b, 0, true, unread)
    {
      hide NoRunt, Place, Room;
      assert [] + unread == unread;
    }

    /** One pass of the loop of process_buffer. */
    method Pass(src: array<byte>, b: nat, offset: nat, direct: bool, len: nat, ghost unread: seq<byte>)
      returns (ok: bool, n: nat, b': nat, offset': nat, direct': bool)
      requires Reading(src, b, offset, direct, unread) && |unread| == len > 0
      modifies this`curArr, this`curPos, this`curOffset, this`curSize, this`msgArr, this`msgPos, this`log,
               this`pending, curArr
      ensures 0 < n <= len
      ensures ok ==>
                && Reading(src, b', offset', direct', unread[n..])
                && Resumed(log, pending + unread[n..], msgMax, accept) ==
                     Resumed(old(log), old(pending) + unread, msgMax, accept)
      ensures !ok ==> var r := Resumed(old(log), old(pending) + unread, msgMax, accept); log == r.events && !r.ok
    {
      hide Resumed, Receiver.Reading, Receiver.Ready;
      n := TakeChunk(src, b, offset, direct, len, unread);
      CutStream(old(pending), unread, n);
      if curOffset == 0 {
        ok := HandOver(src, b + offset + n, offset + n, direct, old(pending), unread, n);
        b', offset', direct' := b + offset + n, 0, true;
        assert [] + unread[n..] == unread[n..];
      } else {
        ok, b', offset', direct' := true, b, offset + n, direct;
      }
    }

    /** The end of process_buffer. */
    method Finish(src: array<byte>, b: nat, offset: nat, direct: bool)
      requires Reading(src, b, offset, direct, [])
      modifies this`curArr, this`curPos, buf
      ensures Valid()
    {
      hide SwapHeader, Length, NoRunt, Unfinished, Declared, Converted, At;
      if curOffset == 0 {
        ResetReadBuffer();
        AtNothing(curArr, curPos);
      } else if direct {
        StartAccumulation(src, b, curOffset, Converted(pending));
      }
    }

    lemma AtNothing(a: array<byte>, p: nat)
      requires p <= a.Length
      ensures At(a, p, Converted([]))
    {
    }

    lemma Enter(src: array<byte>, start: nat, len: nat)
      requires Valid() && Readable(src, start, len)
      requires NoRunt(pending + src[start..start + len], msgMax)
      ensures curOffset == 0 ==>
                && Place(strategy, buf, src, src, start, 0, start, 0, len, true)
                && Room(strategy, maxSize, msgMax, start, 0, curSize, 0, len)
      ensures curOffset > 0 ==> Reading(src, start, 0, false, src[start..start + len])
      ensures At(src, start, src[start..start + len])
    {
      hide SwapHeader, Length, NoRunt, Unfinished, Declared, Converted;
    }

    /** process_buffer: parses len bytes at src[start..].  The handler is called exactly as serving
        the pending bytes followed by the new ones demands, and the unfinished tail is kept. */
    method ProcessBuffer(src: array<byte>, start: nat, len: nat) returns (ok: bool)
      requires Valid() && Readable(src, start, len)
      requires NoRunt(pending + src[start..start + len], msgMax)
      modifies this`curArr, this`curPos, this`curOffset, this`curSize, this`msgArr, this`msgPos, this`log,
               this`pending, buf, src
      ensures var r := Resumed(old(log), old(pending + src[start..start + len]), msgMax, accept);
              log == r.events && ok == r.ok && (ok ==> Valid() && pending == r.tail)
    {
      Enter(src, start, len);
      ghost var unread := src[start..start + len];
      var left, b, offset := len, start, 0;
      var direct := curOffset == 0;
      if direct {
        assert [] + unread == unread;
        curArr, curPos := src, b;
        StartReading(src, b, unread);
      }
      hide Resumed, Room, Fits, Unfinished, Declared, NoRunt, Converted, At;
      while left > 0
        invariant |unread| == left && Reading(src, b, offset, direct, unread)
        invariant Resumed(log, pending + unread, msgMax, accept) ==
                  Resumed(old(log), old(pending + src[start..start + len]), msgMax, accept)
      {
        var n;
        ok, n, b, offset, direct := Pass(src, b, offset, direct, left, unread);
        if !ok {
          return;
        }
        left, unread := left - n, unread[n..];
      }
      assert pending + unread == pending;
      ResumedEnds(log, pending, msgMax, accept);
      Finish(src, b, offset, direct);
      ok := true;
    }
  }
}
