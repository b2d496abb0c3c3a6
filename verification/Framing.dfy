// What the stream parser must compute, independently of how the byte stream is cut into reads:
// split the stream by the length each header declares and hand over the pieces in order.
module Framing {
  import opened Messages

  /** One call of the message handler: a whole message, its header in host order, or the news that
      a header declared more than the maximum size. */
  datatype Event = Whole(bytes: seq<byte>) | Oversized

  /** The handler calls made so far, whether the handler still wants more, and the bytes received
      but not handed over yet (in network order). */
  datatype Served = Served(events: seq<Event>, ok: bool, tail: seq<byte>)

  /** The handler's answer to its k-th call with a whole message.  (An oversized message is always
      refused: both handlers of the program do so.) */
  type Verdicts = nat -> bool

  /** Serves the stream s, the first message of which is number k. */
  function Serve(s: seq<byte>, max: nat, k: nat, accept: Verdicts): (r: Served)
    ensures r.ok ==> |r.tail| <= |s|
    decreases |s|
  {
    if |s| < EFFECTIVE_SIZE then Served([], true, s) else
    var len := NetLength(s);
    if len > max then Served([Oversized], false, [])
    else if len < EFFECTIVE_SIZE || |s| < len then Served([], true, s)
    else if !accept(k) then Served([Whole(Converted(s[..len]))], false, [])
    else
      var r := Serve(s[len..], max, k + 1, accept);
      Served([Whole(Converted(s[..len]))] + r.events, r.ok, r.tail)
  }

  /** No header met while splitting s declares less than the size of a header. */
  ghost predicate NoRunt(s: seq<byte>, max: nat)
    decreases |s|
  {
    |s| >= EFFECTIVE_SIZE ==>
      var len := NetLength(s);
      len <= max ==> EFFECTIVE_SIZE <= len && (len <= |s| ==> NoRunt(s[len..], max))
  }

  lemma NoRuntHeader(s: seq<byte>, max: nat)
    requires NoRunt(s, max)
    ensures |s| >= EFFECTIVE_SIZE && NetLength(s) <= max ==> EFFECTIVE_SIZE <= NetLength(s)
  {
  }

  lemma {:induction false} NoRuntPrefix(a: seq<byte>, b: seq<byte>, max: nat)
    requires NoRunt(a + b, max)
    ensures NoRunt(a, max)
    decreases |a|
  {
    if |a| >= EFFECTIVE_SIZE {
      NetLengthPrefix(a, a + b);
      var len := NetLength(a);
      if len <= max && len <= |a| {
        assert (a + b)[len..] == a[len..] + b;
        NoRuntPrefix(a[len..], b, max);
      }
    }
  }

  /** A message on the wire whose declared length is its own and within bounds. */
  predicate WellFormed(m: seq<byte>, max: nat) {
    EFFECTIVE_SIZE <= |m| <= max && NetLength(m) == |m|
  }

  /** Bytes that do not hold a whole message yet. */
  predicate Unfinished(t: seq<byte>, max: nat) {
    |t| >= EFFECTIVE_SIZE ==> EFFECTIVE_SIZE <= NetLength(t) <= max && |t| < NetLength(t)
  }

  /** How a stream that starts with a whole message is served. */
  lemma ServeCons(m: seq<byte>, rest: seq<byte>, max: nat, k: nat, accept: Verdicts)
    requires WellFormed(m, max)
    ensures NoRunt(m + rest, max) == NoRunt(rest, max)
    ensures Serve(m + rest, max, k, accept) ==
            if !accept(k) then Served([Whole(Converted(m))], false, [])
            else
              var r := Serve(rest, max, k + 1, accept);
              Served([Whole(Converted(m))] + r.events, r.ok, r.tail)
  {
    var s := m + rest;
    assert s[..|m|] == m && s[|m|..] == rest;
    NetLengthPrefix(m, s);
  }

  /** A stream without runts has no whole message yet, is oversized, or starts with a message. */
  lemma ServeCases(s: seq<byte>, max: nat, k: nat, accept: Verdicts)
    requires NoRunt(s, max)
    ensures Unfinished(s, max) ==> Serve(s, max, k, accept) == Served([], true, s)
    ensures !Unfinished(s, max) && NetLength(s) > max ==> Serve(s, max, k, accept) == Served([Oversized], false, [])
    ensures !Unfinished(s, max) && NetLength(s) <= max ==>
              var len := NetLength(s);
              len <= |s| && WellFormed(s[..len], max) && s == s[..len] + s[len..] && NoRunt(s[len..], max)
  {
    if |s| >= EFFECTIVE_SIZE && EFFECTIVE_SIZE <= NetLength(s) <= |s| {
      NetLengthPrefix(s[..NetLength(s)], s);
    }
  }

  lemma EventsAssociate(x: seq<Event>, y: seq<Event>, z: seq<Event>)
    ensures x + (y + z) == x + y + z
    ensures [] + z == z
  {
  }

  /** Serving a stream in two parts is serving it at once: whatever the cut, the second part starts
      from the unfinished tail of the first.  A refusal in the first part ends the service. */
  lemma {:induction false} ServeAppend(a: seq<byte>, b: seq<byte>, max: nat, k: nat, accept: Verdicts)
    requires NoRunt(a + b, max)
    ensures var r := Serve(a, max, k, accept);
            if !r.ok then Serve(a + b, max, k, accept) == r
            else
              var q := Serve(r.tail + b, max, k + |r.events|, accept);
              && NoRunt(r.tail + b, max)
              && Serve(a + b, max, k, accept) == Served(r.events + q.events, q.ok, q.tail)
    decreases |a|
  {
    hide Serve, NoRunt, SwapHeader, Length;
    NoRuntPrefix(a, b, max);
    ServeCases(a, max, k, accept);
    if Unfinished(a, max) {
      EventsAssociate([], [], Serve(a + b, max, k, accept).events);
    } else if NetLength(a) > max {
      NetLengthPrefix(a, a + b);
      ServeCases(a + b, max, k, accept);
    } else {
      var m, rest := a[..NetLength(a)], a[NetLength(a)..];
      assert a + b == m + (rest + b);
      ServeCons(m, rest, max, k, accept);
      ServeCons(m, rest + b, max, k, accept);
      if accept(k) {
        ServeAppend(rest, b, max, k + 1, accept);
        var r := Serve(rest, max, k + 1, accept);
        if r.ok {
          var q := Serve(r.tail + b, max, k + 1 + |r.events|, accept);
          assert k + |[Whole(Converted(m))] + r.events| == k + 1 + |r.events|;
          EventsAssociate([Whole(Converted(m))], r.events, q.events);
        }
      }
    }
  }

  /** The service of s by a handler that was called for log before. */
  function Resumed(log: seq<Event>, s: seq<byte>, max: nat, accept: Verdicts): Served {
    var r := Serve(s, max, |log|, accept);
    Served(log + r.events, r.ok, r.tail)
  }

  lemma ResumedCons(log: seq<Event>, m: seq<byte>, rest: seq<byte>, max: nat, accept: Verdicts)
    requires WellFormed(m, max)
    ensures NoRunt(m + rest, max) == NoRunt(rest, max)
    ensures Resumed(log, m + rest, max, accept) ==
            var log' := log + [Whole(Converted(m))];
            if accept(|log|) then Resumed(log', rest, max, accept) else Served(log', false, [])
  {
    hide Serve, NoRunt, SwapHeader, Length;
    ServeCons(m, rest, max, |log|, accept);
    var r := Serve(rest, max, |log| + 1, accept);
    EventsAssociate(log, [Whole(Converted(m))], r.events);
  }

  lemma ResumedEnds(log: seq<Event>, s: seq<byte>, max: nat, accept: Verdicts)
    requires NoRunt(s, max)
    ensures Unfinished(s, max) ==> Resumed(log, s, max, accept) == Served(log, true, s)
    ensures !Unfinished(s, max) && NetLength(s) > max ==>
              Resumed(log, s, max, accept) == Served(log + [Oversized], false, [])
  {
    ServeCases(s, max, |log|, accept);
    assert log + [] == log;
  }

  // --- the declarative reference: a framing of a stream ---

  function Concat(parts: seq<seq<byte>>): seq<byte> {
    if parts == [] then [] else parts[0] + Concat(parts[1..])
  }

  lemma {:induction false} ConcatAppend(xs: seq<seq<byte>>, ys: seq<seq<byte>>)
    ensures Concat(xs + ys) == Concat(xs) + Concat(ys)
  {
    if xs == [] {
      assert xs + ys == ys;
    } else {
      assert (xs + ys)[1..] == xs[1..] + ys;
      ConcatAppend(xs[1..], ys);
    }
  }

  lemma ConcatOne(x: seq<byte>)
    ensures Concat([x]) == x
  {
    assert Concat([x]) == x + Concat([]);
  }

  function Events(msgs: seq<seq<byte>>): (r: seq<Event>)
    ensures |r| == |msgs|
  {
    if msgs == [] then [] else [Whole(Converted(msgs[0]))] + Events(msgs[1..])
  }

  ghost predicate AcceptsAll(accept: Verdicts) {
    forall k :: accept(k)
  }

  /** If a stream is the concatenation of well-formed messages and an unfinished tail, then exactly
      these messages are handed over, in this order, and exactly that tail is kept.  (So no stream
      has two framings.) */
  lemma {:induction false} ServeFraming(msgs: seq<seq<byte>>, tail: seq<byte>, max: nat, k: nat, accept: Verdicts)
    requires forall m | m in msgs :: WellFormed(m, max)
    requires Unfinished(tail, max) && AcceptsAll(accept)
    ensures NoRunt(Concat(msgs) + tail, max)
    ensures Serve(Concat(msgs) + tail, max, k, accept) == Served(Events(msgs), true, tail)
    decreases |msgs|
  {
    if msgs == [] {
      assert Concat(msgs) + tail == tail;
    } else {
      var rest := Concat(msgs[1..]) + tail;
      assert Concat(msgs) + tail == msgs[0] + rest;
      ServeFraming(msgs[1..], tail, max, k + 1, accept);
      ServeCons(msgs[0], rest, max, k, accept);
    }
  }

  /** Conversely, a stream served to the end has such a framing. */
  lemma {:induction false} FramingExists(s: seq<byte>, max: nat, k: nat, accept: Verdicts)
    returns (msgs: seq<seq<byte>>)
    requires NoRunt(s, max) && AcceptsAll(accept)
    requires Serve(s, max, k, accept).ok
    ensures forall m | m in msgs :: WellFormed(m, max)
    ensures Unfinished(Serve(s, max, k, accept).tail, max)
    ensures s == Concat(msgs) + Serve(s, max, k, accept).tail
    ensures Serve(s, max, k, accept).events == Events(msgs)
    decreases |s|
  {
    hide Serve, NoRunt, SwapHeader, Length;
    ServeCases(s, max, k, accept);
    msgs := [];
    if !Unfinished(s, max) {
      var m, rest := s[..NetLength(s)], s[NetLength(s)..];
      ServeCons(m, rest, max, k, accept);
      var ms := FramingExists(rest, max, k + 1, accept);
      msgs := [m] + ms;
      assert msgs[1..] == ms;
      assert s == m + (Concat(ms) + Serve(s, max, k, accept).tail);
    }
  }
}
