// The two ways bytes reach the parser (src/input_handlers.h): recvfrom() into the parser's own
// buffer, and buffers that the network stack owns.
module InputHandlers {
  import opened Messages
  import opened Arith
  import opened Framing
  import opened MessageParser

  /** The state of a receiver that has been given the bytes s so far. */
  ghost predicate HasServed(r: Receiver, s: seq<byte>)
    reads r, r.curArr
  {
    r.Valid() && Serve(s, r.msgMax, 0, r.accept) == Served(r.log, true, r.pending)
  }

  /** One more read continues the service where the last one left it. */
  lemma ServeMore(a: seq<byte>, b: seq<byte>, max: nat, accept: Verdicts, log: seq<Event>, tail: seq<byte>)
    requires NoRunt(a + b, max)
    requires Serve(a, max, 0, accept) == Served(log, true, tail)
    ensures NoRunt(tail + b, max)
    ensures Serve(a + b, max, 0, accept) == Resumed(log, tail + b, max, accept)
  {
    hide Serve, NoRunt;
    ServeAppend(a, b, max, 0, accept);
  }

  /** RecvFromInputHandler: recvfrom() delivers the bytes chunk at cur_addr + cur_offset, at most
      cur_size of them; then they are parsed where they are. */
  method ReceiveInPlace(r: Receiver, chunk: seq<byte>, ghost before: seq<byte>) returns (ok: bool)
    requires HasServed(r, before) && r.strategy.InPlace?
    requires |chunk| <= r.curSize
    requires NoRunt(before + chunk, r.msgMax)
    modifies r, r.buf
    ensures ok ==> HasServed(r, before + chunk)
    ensures !ok ==> var s := Serve(before + chunk, r.msgMax, 0, r.accept); !s.ok && r.log == s.events
  {
    hide Serve, NoRunt, Converted, Unfinished, Declared;
    r.InPlaceBound();
    ServeMore(before, chunk, r.msgMax, r.accept, r.log, r.pending);
    var from := r.curPos + r.curOffset;
    AtWas(r.buf, r.curPos, Converted(r.pending));
    ghost var was := r.buf[..];
    forall i | from <= i < from + |chunk| {
      r.buf[i] := chunk[i - from];
    }
    AtSame(r.buf, was, r.curPos, Converted(r.pending));
    assert r.buf[from..from + |chunk|] == chunk;
    ok := r.ProcessBuffer(r.buf, from, |chunk|);
  }

  /** A buffer owned by the network stack is parsed where it is, unfinished messages are copied. */
  method ReceiveBuffered(r: Receiver, chunk: seq<byte>, ghost before: seq<byte>) returns (ok: bool)
    requires HasServed(r, before) && r.strategy.Buffered?
    requires NoRunt(before + chunk, r.msgMax)
    modifies r, r.buf
    ensures ok ==> HasServed(r, before + chunk)
    ensures !ok ==> var s := Serve(before + chunk, r.msgMax, 0, r.accept); !s.ok && r.log == s.events
  {
    hide Serve, NoRunt, Converted, Unfinished, Declared;
    ServeMore(before, chunk, r.msgMax, r.accept, r.log, r.pending);
    var src := new byte[|chunk|](i requires 0 <= i < |chunk| => chunk[i]);
    assert src[0..|chunk|] == chunk;
    ok := r.ProcessBuffer(src, 0, |chunk|);
  }

  /** Reading a byte stream with recvfrom(), in place: whatever the kernel delivers each time (cuts
      gives its choices), the handler is called exactly as the bytes read so far demand. */
  method RunInPlace(stream: seq<byte>, cuts: seq<nat>, maxSize: nat, msgMax: nat, accept: Verdicts, rewrite: Rewrite)
    returns (events: seq<Event>, ok: bool, taken: nat)
    requires EFFECTIVE_SIZE <= maxSize && msgMax <= maxSize + 1
    requires NoRunt(stream, msgMax)
    ensures taken <= |stream|
    ensures var s := Serve(stream[..taken], msgMax, 0, accept); events == s.events && ok == s.ok
    ensures ok && taken < |stream| ==> taken >= |cuts|
  {
    hide Serve, NoRunt;
    var r := new Receiver(InPlace, maxSize, msgMax, accept, rewrite);
    taken, ok := 0, true;
    ServeNothing(msgMax, accept);
    assert stream[..0] == [];
    for k := 0 to |cuts|
      invariant taken <= |stream| && fresh(r) && fresh(r.buf) && r.strategy.InPlace?
      invariant r.msgMax == msgMax && r.accept == accept
      invariant HasServed(r, stream[..taken])
      invariant taken < |stream| ==> taken >= k
    {
      r.InPlaceBound();
      var n := Min(Min(if cuts[k] == 0 then 1 else cuts[k], r.curSize), |stream| - taken);
      assert stream[..taken] + stream[taken..taken + n] == stream[..taken + n];
      assert stream == stream[..taken + n] + stream[taken + n..];
      NoRuntPrefix(stream[..taken + n], stream[taken + n..], msgMax);
      ok := ReceiveInPlace(r, stream[taken..taken + n], stream[..taken]);
      taken := taken + n;
      if !ok {
        return r.log, false, taken;
      }
    }
    events := r.log;
  }

  lemma ServeNothing(max: nat, accept: Verdicts)
    ensures Serve([], max, 0, accept) == Served([], true, [])
  {
  }

  /** Reading a byte stream that arrives in buffers of any sizes. */
  method RunBuffered(chunks: seq<seq<byte>>, maxSize: nat, msgMax: nat, accept: Verdicts, rewrite: Rewrite)
    returns (events: seq<Event>, ok: bool, used: nat)
    requires EFFECTIVE_SIZE <= maxSize && msgMax <= maxSize + 1
    requires NoRunt(Concat(chunks), msgMax)
    ensures used <= |chunks| && (ok ==> used == |chunks|)
    ensures var s := Serve(Concat(chunks[..used]), msgMax, 0, accept); events == s.events && ok == s.ok
  {
    hide Serve, NoRunt;
    var r := new Receiver(Buffered, maxSize, msgMax, accept, rewrite);
    used, ok := 0, true;
    ServeNothing(msgMax, accept);
    assert Concat(chunks[..0]) == [];
    while used < |chunks|
      invariant used <= |chunks| && fresh(r) && fresh(r.buf) && r.strategy.Buffered?
      invariant r.msgMax == msgMax && r.accept == accept
      invariant ok && HasServed(r, Concat(chunks[..used]))
    {
      ConcatNext(chunks, used);
      NoRuntPrefix(Concat(chunks[..used + 1]), Concat(chunks[used + 1..]), msgMax);
      ok := ReceiveBuffered(r, chunks[used], Concat(chunks[..used]));
      used := used + 1;
      if !ok {
        return r.log, false, used;
      }
    }
    events := r.log;
  }

  lemma ConcatNext(chunks: seq<seq<byte>>, k: nat)
    requires k < |chunks|
    ensures Concat(chunks[..k + 1]) == Concat(chunks[..k]) + chunks[k]
    ensures Concat(chunks) == Concat(chunks[..k + 1]) + Concat(chunks[k + 1..])
  {
    hide Concat;
    SplitAt(chunks, k);
    ConcatThree(chunks[..k], chunks[k], chunks[k + 1..]);
  }

  lemma SplitAt<T>(s: seq<T>, k: nat)
    requires k < |s|
    ensures s[..k + 1] == s[..k] + [s[k]]
    ensures s == s[..k] + [s[k]] + s[k + 1..]
  {
  }

  lemma ConcatThree(a: seq<seq<byte>>, x: seq<byte>, b: seq<seq<byte>>)
    ensures Concat(a + [x]) == Concat(a) + x
    ensures Concat(a + [x] + b) == Concat(a + [x]) + Concat(b)
  {
    hide Concat;
    ConcatAppend(a, [x]);
    ConcatOne(x);
    ConcatAppend(a + [x], b);
  }
}
