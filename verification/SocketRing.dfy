// The client's ring of sockets (src/sockperf.cpp): how it is linked, the sanity check on it, and the
// order in which the send loop serves the sockets (src/client.cpp).
module SocketRing {
  import opened Options
  import opened Sets
  import opened Arith

  /** For each descriptor the next one to serve, or None where no socket is registered. */
  type Links = seq<Option<nat>>

  predicate Closed(next: Links) {
    forall fd | 0 <= fd < |next| && next[fd].Some? :: next[fd].value < |next|
  }

  // --- following the links ---

  /** One link on; |next| is where a walk ends that meets no socket. */
  function Step(next: Links, fd: nat): nat {
    if fd < |next| && next[fd].Some? then next[fd].value else |next|
  }

  function Walk(next: Links, fd: nat, k: nat): nat {
    if k == 0 then fd else Step(next, Walk(next, fd, k - 1))
  }

  lemma {:induction false} WalkOn(next: Links, fd: nat, j: nat, k: nat)
    ensures Walk(next, fd, j + k) == Walk(next, Walk(next, fd, j), k)
  {
    if k > 0 {
      WalkOn(next, fd, j, k - 1);
      assert j + k - 1 == j + (k - 1);
    }
  }

  // --- the sanity check ---

  /** From min, the walk gets to max for the first time after num - 1 links, and from there back. */
  ghost predicate Checked(next: Links, min: nat, max: nat, num: int) {
    && 0 < num && Walk(next, min, num - 1) == max && Step(next, max) == min
    && forall k: nat | k < num - 1 :: Walk(next, min, k) != max
  }

  /** fds_array_is_valid. */
  method FdsArrayIsValid(next: Links, min: nat, max: nat, num: nat) returns (valid: bool)
    requires Closed(next) && min < |next| && max < |next| && next[max].Some?
    ensures valid <==> Checked(next, min, max, num)
  {
    var fd, i := min, 0;
    while i < num && fd != max
      invariant i <= num && fd == Walk(next, min, i) < |next|
      invariant forall k: nat | k < i :: Walk(next, min, k) != max
    {
      if next[fd].None? {
        Broken(next, min, max, i, num);
        return false;
      }
      fd := next[fd].value;
      i := i + 1;
    }
    valid := fd == max && i + 1 == num && next[fd].value == min;
    if fd == max && Checked(next, min, max, num) {
      assert Walk(next, min, i) == max;
    }
  }

  lemma {:induction false} Sink(next: Links, k: nat)
    ensures Walk(next, |next|, k) == |next|
  {
    if k > 0 {
      Sink(next, k - 1);
    }
  }

  lemma Broken(next: Links, min: nat, max: nat, i: nat, num: nat)
    requires max < |next| && next[max].Some? && min < |next|
    requires Walk(next, min, i) < |next| && next[Walk(next, min, i)].None?
    requires forall k: nat | k < i :: Walk(next, min, k) != max
    ensures !Checked(next, min, max, num)
  {
    if Checked(next, min, max, num) {
      assert num - 1 > i;
      WalkOn(next, min, i + 1, num - 1 - (i + 1));
      Sink(next, num - 1 - (i + 1));
      assert false;
    }
  }

  // --- what it guarantees ---

  /** The first n sockets of a walk. */
  function Trace(next: Links, fd: nat, n: nat): (t: seq<nat>)
    ensures |t| == n && forall k: nat | k < n :: t[k] == Walk(next, fd, k)
  {
    seq(n, k requires 0 <= k => Walk(next, fd, k))
  }

  /** A ring of num different sockets through min, with max before min. */
  ghost predicate Ring(next: Links, min: nat, max: nat, num: nat) {
    && 0 < num && Walk(next, min, num) == min && Walk(next, min, num - 1) == max
    && forall i: nat, j: nat | i < j < num :: Walk(next, min, i) != Walk(next, min, j)
  }

  /** The check accepts exactly the rings. */
  lemma CheckedExactly(next: Links, min: nat, max: nat, num: nat)
    ensures Checked(next, min, max, num) <==> Ring(next, min, max, num)
  {
    if Checked(next, min, max, num) {
      forall i: nat, j: nat | i < j < num
        ensures Walk(next, min, i) != Walk(next, min, j)
      {
        if Walk(next, min, i) == Walk(next, min, j) {
          var rest := num - 1 - j;
          WalkOn(next, min, i, rest);
          WalkOn(next, min, j, rest);
          assert false;
        }
      }
    }
  }

  ghost function Registered(next: Links): set<int> {
    set fd | 0 <= fd < |next| && next[fd].Some?
  }

  /** All sockets of a ring are registered; if there are no others, the ring holds them all. */
  lemma RingCovers(next: Links, min: nat, max: nat, num: nat)
    requires Ring(next, min, max, num) && min < |next|
    ensures forall k: nat | k < num :: Walk(next, min, k) in Registered(next)
    ensures |Registered(next)| == num ==> forall fd | fd in Registered(next) :: fd in Trace(next, min, num)
  {
    hide Walk;
    var t := Trace(next, min, num);
    forall k: nat | k < num
      ensures Walk(next, min, k) in Registered(next)
    {
      StaysRegistered(next, min, max, num, k);
    }
    ghost var visited: set<int> := set fd | fd in t;
    assert visited <= Registered(next);
    TraceSize(next, min, max, num);
    SubsetSize(visited, Registered(next));
  }

  lemma TraceSize(next: Links, min: nat, max: nat, num: nat)
    requires Ring(next, min, max, num)
    ensures var visited: set<int> := set fd | fd in Trace(next, min, num); |visited| == num
  {
    hide Walk;
    var t: seq<int> := Trace(next, min, num);
    DistinctSize(t);
    var visited: set<int> := set fd | fd in Trace(next, min, num);
    assert visited == ToSet(t);
  }

  lemma StaysRegistered(next: Links, min: nat, max: nat, num: nat, k: nat)
    requires Ring(next, min, max, num) && min < |next| && k < num
    ensures Walk(next, min, k) in Registered(next)
  {
    if Walk(next, min, k) !in Registered(next) {
      WalkOn(next, min, k + 1, num - (k + 1));
      Sink(next, num - (k + 1));
      assert false;
    }
  }

  // --- the send loop ---

  /** doSendLoop: which socket each turn serves. */
  method SendLoop(next: Links, min: nat, turns: nat) returns (served: seq<nat>)
    ensures |served| == turns && forall k: nat | k < turns :: served[k] == Walk(next, min, k)
  {
    var fd := min;
    served := [];
    while |served| < turns
      invariant |served| <= turns && fd == Walk(next, min, |served|)
      invariant forall k: nat | k < |served| :: served[k] == Walk(next, min, k)
    {
      served := served + [fd];
      fd := Step(next, fd);
    }
  }

  lemma {:induction false} Rounds(next: Links, min: nat, max: nat, num: nat, m: nat, k: nat)
    requires Ring(next, min, max, num)
    ensures 0 <= m * num && Walk(next, min, m * num + k) == Walk(next, min, k)
    decreases m
  {
    if m > 0 {
      Rounds(next, min, max, num, m - 1, k);
      assert m * num + k == num + ((m - 1) * num + k);
      WalkOn(next, min, num, (m - 1) * num + k);
    }
  }

  /** Any two turns less than a round apart serve different sockets... */
  lemma WindowDistinct(next: Links, min: nat, max: nat, num: nat, i: nat, j: nat)
    requires Ring(next, min, max, num) && i < j < i + num
    ensures Walk(next, min, i) != Walk(next, min, j)
  {
    hide Walk;
    var t := i * num - i;
    assert t >= 0 by { MulMono(1, num, i); }
    WalkOn(next, min, i, t);
    WalkOn(next, min, j, t);
    Rounds(next, min, max, num, i, 0);
    Rounds(next, min, max, num, i, j - i);
    assert i + t == i * num + 0 && j + t == i * num + (j - i);
  }

  /** ... and every window of num turns serves every socket of the ring, exactly once. */
  lemma WindowFair(next: Links, min: nat, max: nat, num: nat, start: nat, fd: nat)
    requires Ring(next, min, max, num) && fd in Trace(next, min, num)
    ensures exists k: nat :: start <= k < start + num && Walk(next, min, k) == fd
    ensures forall i: nat, j: nat | start <= i < j < start + num :: !(Walk(next, min, i) == fd == Walk(next, min, j))
  {
    forall i: nat, j: nat | start <= i < j < start + num
      ensures !(Walk(next, min, i) == fd == Walk(next, min, j))
    {
      WindowDistinct(next, min, max, num, i, j);
    }
    Returns(next, min, max, num, start, fd);
  }

  lemma {:induction false} Returns(next: Links, min: nat, max: nat, num: nat, start: nat, fd: nat)
    requires Ring(next, min, max, num) && fd in Trace(next, min, num)
    ensures exists k: nat :: start <= k < start + num && Walk(next, min, k) == fd
    decreases start
  {
    hide Walk;
    if start == 0 {
      var k: nat :| k < num && Trace(next, min, num)[k] == fd;
      assert Walk(next, min, k) == fd;
    } else {
      Returns(next, min, max, num, start - 1, fd);
      var k: nat :| start - 1 <= k < start - 1 + num && Walk(next, min, k) == fd;
      if k == start - 1 {
        WalkOn(next, min, num, k);
        assert Walk(next, min, k + num) == fd;
      }
    }
  }

  // --- how the ring is made ---

  ghost predicate MinMax(fds: seq<nat>, min: nat, max: nat) {
    && min in fds && max in fds
    && forall i | 0 <= i < |fds| :: min <= fds[i] <= max
  }

  /** The socket opened after the i-th; 0 is what a fresh entry links to. */
  function After(fds: seq<nat>, i: nat): nat {
    if i + 1 < |fds| then fds[i + 1] else 0
  }

  /** The links after the sockets fds were opened in this order: each links to the next, but the
      largest to the smallest, and the last to 0 if it is not the largest. */
  ghost predicate Linked(next: Links, fds: seq<nat>, min: nat, max: nat) {
    && fds != [] && Distinct(fds) && MinMax(fds, min, max) && max < |next|
    && (forall i | 0 <= i < |fds| ::
          next[fds[i]] == Some(if fds[i] == max then min else After(fds, i)))
    && (forall fd: nat | fd < |next| && fd !in fds :: next[fd] == None)
  }

  /** The linking in set_sockets_from_feedfile: fds are the descriptors socket() returns. */
  method OpenSockets(next: array<Option<nat>>, fds: seq<nat>) returns (min: nat, max: nat, num: nat)
    requires fds != [] && Distinct(fds) && forall i | 0 <= i < |fds| :: fds[i] < next.Length
    requires forall fd | 0 <= fd < next.Length :: next[fd] == None
    modifies next
    ensures num == |fds| && Linked(next[..], fds, min, max)
  {
    hide Distinct, MinMax, Chain, Linked;
    num, min, max := 0, 0, 0;
    var last := 0;
    assert fds[..0] == [];
    EmptyChain(next[..]);
    while num < |fds|
      invariant num <= |fds| && Chain(next[..], fds[..num])
      invariant num > 0 ==> last == fds[num - 1] && MinMax(fds[..num], min, max)
    {
      var fd := fds[num];
      NotBefore(fds, num);
      assert fds[..num + 1] == fds[..num] + [fd];
      ChainNext(next[..], fds[..num], fd);
      MinMaxNext(fds[..num], min, max, fd);
      assert num == 0 ==> fds[..num + 1] == [fd];
      ChainLast(next[..], fds[..num]);
      ghost var before := next[..];
      num := num + 1;
      if num == 1 {
        min, max := fd, fd;
      } else {
        next[last] := Some(fd);
        min := if fd < min then fd else min;
        max := if fd > max then fd else max;
      }
      assert MinMax(fds[..num], min, max);
      last := fd;
      next[fd] := Some(0);
      assert next[..] == (if num == 1 then before else before[fds[num - 2] := Some(fd)])[fd := Some(0)];
    }
    assert fds[..num] == fds;
    ghost var before := next[..];
    CloseLoop(before, fds, min, max);
    next[max] := Some(min);
    assert next[..] == before[max := Some(min)];
  }

  /** The links before the loop is closed. */
  ghost predicate Chain(next: Links, fds: seq<nat>) {
    && (forall i | 0 <= i < |fds| ::
          fds[i] < |next| && next[fds[i]] == Some(After(fds, i)))
    && (forall fd: nat | fd < |next| && fd !in fds :: next[fd] == None)
  }

  lemma NotBefore(fds: seq<nat>, k: nat)
    requires Distinct(fds) && k < |fds|
    ensures fds[k] !in fds[..k] && Distinct(fds[..k])
  {
  }

  lemma EmptyChain(next: Links)
    requires forall fd | 0 <= fd < |next| :: next[fd] == None
    ensures Chain(next, [])
  {
  }

  lemma ChainLast(next: Links, fds: seq<nat>)
    requires Chain(next, fds)
    ensures fds != [] ==> fds[|fds| - 1] < |next|
  {
  }

  lemma MinMaxNext(fds: seq<nat>, min: nat, max: nat, fd: nat)
    ensures fds == [] ==> MinMax([fd], fd, fd)
    ensures MinMax(fds, min, max) ==> MinMax(fds + [fd], if fd < min then fd else min, if fd > max then fd else max)
  {
    assert forall x | x in fds :: x in fds + [fd];
    assert (fds + [fd])[|fds|] == fd;
  }

  lemma ChainNext(next: Links, fds: seq<nat>, fd: nat)
    requires Chain(next, fds) && Distinct(fds) && fd < |next| && fd !in fds
    ensures Chain((if fds == [] then next else next[fds[|fds| - 1] := Some(fd)])[fd := Some(0)], fds + [fd])
  {
    hide After;
    var next' := (if fds == [] then next else next[fds[|fds| - 1] := Some(fd)])[fd := Some(0)];
    var fds' := fds + [fd];
    forall i | 0 <= i < |fds'|
      ensures fds'[i] < |next'| && next'[fds'[i]] == Some(After(fds', i))
    {
      AfterNext(fds, fd, i);
      if i < |fds| {
        assert fds'[i] == fds[i] && fds[i] != fd;
      }
    }
  }

  lemma AfterNext(fds: seq<nat>, fd: nat, i: nat)
    ensures After(fds + [fd], i) == if i + 1 == |fds| then fd else After(fds, i)
    ensures i >= |fds| ==> After(fds, i) == 0
  {
  }

  lemma CloseLoop(next: Links, fds: seq<nat>, min: nat, max: nat)
    requires Chain(next, fds) && fds != [] && Distinct(fds) && MinMax(fds, min, max)
    ensures max < |next| && Linked(next[max := Some(min)], fds, min, max)
  {
  }

  lemma NextLink(next: Links, fds: seq<nat>, min: nat, max: nat, i: nat)
    requires Linked(next, fds, min, max) && i + 1 < |fds| && fds[i] != max
    ensures Step(next, fds[i]) == fds[i + 1]
  {
    hide Distinct, MinMax;
    InTable(next, fds, min, max, i);
    assert next[fds[i]] == Some(After(fds, i));
  }

  lemma InTable(next: Links, fds: seq<nat>, min: nat, max: nat, i: nat)
    requires Linked(next, fds, min, max) && i < |fds|
    ensures fds[i] < |next|
  {
    hide After, Distinct;
  }

  lemma {:induction false} Along(next: Links, fds: seq<nat>, min: nat, max: nat, from: nat, k: nat)
    requires Linked(next, fds, min, max) && from + k < |fds|
    requires forall i | from <= i < from + k :: fds[i] != max
    ensures Walk(next, fds[from], k) == fds[from + k]
  {
    hide Walk, Linked, After;
    WalkNext(next, fds[from], k);
    if k > 0 {
      Along(next, fds, min, max, from, k - 1);
      NextLink(next, fds, min, max, from + k - 1);
    }
  }

  lemma Where(next: Links, fds: seq<nat>, min: nat, max: nat) returns (p: nat, q: nat)
    requires Linked(next, fds, min, max)
    ensures p < |fds| && q < |fds| && fds[p] == min && fds[q] == max
    ensures (fds[0] == min <==> p == 0) && (fds[|fds| - 1] == max <==> q == |fds| - 1)
    ensures Step(next, max) == min
    ensures forall i | 0 <= i < |fds| && i != q :: fds[i] != max
    ensures p > q ==> Astray(next, fds, p, min) && min != max
  {
    hide After;
    p :| 0 <= p < |fds| && fds[p] == min;
    q :| 0 <= q < |fds| && fds[q] == max;
  }

  /** So the check accepts exactly if the first socket opened has the smallest descriptor and the last
      one the largest. */
  lemma LinkedExactly(next: Links, fds: seq<nat>, min: nat, max: nat)
    requires Linked(next, fds, min, max)
    ensures Checked(next, min, max, |fds|) <==> fds[0] == min && fds[|fds| - 1] == max
  {
    hide Walk, Linked, After;
    var n := |fds|;
    var p, q := Where(next, fds, min, max);
    if p == 0 && q == n - 1 {
      forall k: nat | k < n
        ensures Walk(next, min, k) == fds[k]
      {
        Along(next, fds, min, max, 0, k);
      }
    } else if p <= q {
      Along(next, fds, min, max, p, q - p);
      assert Walk(next, min, q - p) == max && q - p < n - 1;
    } else {
      NeverThere(next, fds, min, max, p, q, n - 1);
    }
  }

  /** If the smallest was opened after the largest, the walk never gets to the largest: it runs to the
      last one and from there nowhere, or back to the smallest if that is 0. */
  lemma {:induction false} NeverThere(next: Links, fds: seq<nat>, min: nat, max: nat, p: nat, q: nat, k: nat)
    requires Linked(next, fds, min, max) && q < p < |fds| && fds[p] == min && fds[q] == max
    requires Astray(next, fds, p, min) && min != max
    ensures Walk(next, min, k) != max && Astray(next, fds, p, Walk(next, min, k))
  {
    hide Walk, Linked, After, Astray;
    WalkNext(next, min, k);
    if k > 0 {
      NeverThere(next, fds, min, max, p, q, k - 1);
      AstrayNext(next, fds, min, max, p, q, Walk(next, min, k - 1));
    }
  }

  lemma WalkNext(next: Links, fd: nat, k: nat)
    ensures Walk(next, fd, k) == if k == 0 then fd else Step(next, Walk(next, fd, k - 1))
  {
  }

  ghost predicate Astray(next: Links, fds: seq<nat>, p: nat, fd: nat) {
    fd == |next| || (fd == 0 && 0 !in fds) || exists i :: p <= i < |fds| && fds[i] == fd
  }

  lemma AstrayNext(next: Links, fds: seq<nat>, min: nat, max: nat, p: nat, q: nat, fd: nat)
    requires Linked(next, fds, min, max) && q < p < |fds| && fds[p] == min && fds[q] == max
    requires Astray(next, fds, p, fd)
    ensures Step(next, fd) != max && Astray(next, fds, p, Step(next, fd))
  {
    if i :| p <= i < |fds| && fds[i] == fd {
      assert next[fds[i]] == Some(After(fds, i));
      if i + 1 < |fds| {
        assert fds[i + 1] != max && Step(next, fd) == fds[i + 1];
      } else if 0 in fds {
        var z :| 0 <= z < |fds| && fds[z] == 0;
        assert min <= fds[z];
        assert fds[p] == Step(next, fd);
      }
    }
  }
}
