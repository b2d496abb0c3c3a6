// The table of sockets of a TCP server (src/server.cpp, src/server.h): listeners, the connections
// they accepted, and what select() and poll() are given to watch (src/iohandlers.h).
module ConnectionTable {
  import opened Options
  import opened Sets

  const INVALID_SOCKET: int := -1

  /** A registered socket: a listener with its list of accepted sockets, in which unused places hold
      INVALID_SOCKET, or a socket accepted by the given listener. */
  datatype Entry =
    | Listener(stream: bool, list: seq<int>, count: int)
    | Connection(listener: nat)

  type Fds = seq<Option<Entry>>

  // --- lists of active sockets ---

  function Active(list: seq<int>): seq<int> {
    if list == [] then []
    else Active(list[..|list| - 1]) + if list[|list| - 1] == INVALID_SOCKET then [] else [list[|list| - 1]]
  }

  lemma {:induction false} ActiveAppend(a: seq<int>, b: seq<int>)
    ensures Active(a + b) == Active(a) + Active(b)
  {
    if b == [] {
      assert a + b == a;
    } else {
      assert (a + b)[..|a + b| - 1] == a + b[..|b| - 1];
      ActiveAppend(a, b[..|b| - 1]);
    }
  }

  function One(x: int): seq<int> {
    if x == INVALID_SOCKET then [] else [x]
  }

  lemma ActiveOne(x: int)
    ensures Active([x]) == One(x)
  {
    assert [x][..0] == [];
  }

  lemma ActiveSplit(a: seq<int>, x: int, b: seq<int>)
    ensures Active(a + [x] + b) == Active(a) + One(x) + Active(b)
  {
    ActiveAppend(a + [x], b);
    ActiveAppend(a, [x]);
    ActiveOne(x);
  }

  lemma {:induction false} InActive(list: seq<int>, fd: int)
    ensures fd in Active(list) <==> fd != INVALID_SOCKET && fd in list
  {
    if list != [] {
      InActive(list[..|list| - 1], fd);
    }
  }

  lemma {:induction false} AllActive(list: seq<int>)
    requires INVALID_SOCKET !in list
    ensures Active(list) == list
  {
    if list != [] {
      AllActive(list[..|list| - 1]);
    }
  }

  lemma {:induction false} ActiveAtMost(list: seq<int>)
    ensures |Active(list)| <= |list|
  {
    if list != [] {
      ActiveAtMost(list[..|list| - 1]);
    }
  }

  /** Putting a new socket into an unused place, or an unused mark into the place of a socket. */
  lemma ActiveUpdate(list: seq<int>, i: nat, x: int)
    requires i < |list| && (list[i] == INVALID_SOCKET) != (x == INVALID_SOCKET)
    requires Distinct(Active(list)) && (x != INVALID_SOCKET ==> x !in list)
    ensures var t := Active(list[i := x]);
            && Distinct(t)
            && |t| == |Active(list)| + (if x == INVALID_SOCKET then -1 else 1)
            && forall fd :: fd in t <==> (fd in Active(list) && fd != list[i]) || (fd == x && x != INVALID_SOCKET)
  {
    var a, b := list[..i], list[i + 1..];
    assert list == a + [list[i]] + b;
    assert list[i := x] == a + [x] + b;
    ActiveSplit(a, list[i], b);
    ActiveSplit(a, x, b);
    forall fd
      ensures fd in Active(list) <==> fd != INVALID_SOCKET && fd in list
      ensures fd in Active(a) + Active(b) ==> fd in Active(list)
    {
      InActive(list, fd);
    }
    if x == INVALID_SOCKET {
      DropOne(Active(a), list[i], Active(b));
    } else {
      assert x !in Active(list);
      AddOne(Active(a), x, Active(b));
    }
  }

  lemma AddOne(a: seq<int>, x: int, b: seq<int>)
    requires Distinct(a + [] + b) && x !in a + [] + b
    ensures Distinct(a + [x] + b)
    ensures forall fd :: fd in a + [x] + b <==> fd in a + [] + b || fd == x
  {
    assert a + [] + b == a + b;
    var s, t := a + b, a + [x] + b;
    assert forall k | 0 <= k < |a| :: t[k] == s[k];
    assert forall k | |a| < k < |t| :: t[k] == s[k - 1];
    assert forall k | |a| <= k < |s| :: s[k] == t[k + 1];
  }

  lemma DropOne(a: seq<int>, x: int, b: seq<int>)
    requires Distinct(a + [x] + b)
    ensures Distinct(a + [] + b)
    ensures forall fd :: fd in a + [] + b <==> fd in a + [x] + b && fd != x
  {
    assert a + [] + b == a + b;
    var s, t := a + b, a + [x] + b;
    assert forall k | 0 <= k < |a| :: t[k] == s[k];
    assert forall k | |a| <= k < |s| :: s[k] == t[k + 1];
    assert t[|a|] == x;
    forall fd | fd in t && fd != x
      ensures fd in s
    {
      var k :| 0 <= k < |t| && t[k] == fd;
      assert k < |a| || s[k - 1] == fd;
    }
  }

  // --- the table ---

  predicate IsListener(s: Fds, l: int) {
    0 <= l < |s| && s[l].Some? && s[l].value.Listener?
  }

  predicate IsConnection(s: Fds, c: int, l: int) {
    0 <= c < |s| && 0 <= l && s[c] == Some(Connection(l))
  }

  function ActiveAt(s: Fds, l: int): seq<int>
    requires IsListener(s, l)
  {
    Active(s[l].value.list)
  }

  /** The count is the number of places used, the last place is not, and every place used holds
      another connection of this listener. */
  ghost predicate GoodListener(s: Fds, l: int, lo: nat, hi: nat)
    requires IsListener(s, l)
  {
    var e := s[l].value;
    && lo <= l <= hi && |e.list| == |s| && e.list[|s| - 1] == INVALID_SOCKET
    && e.count == |ActiveAt(s, l)| && Distinct(ActiveAt(s, l)) && (!e.stream ==> e.count == 0)
    && forall c | c in ActiveAt(s, l) :: IsConnection(s, c, l)
  }

  /** Every connection lies outside the range of the listeners and is in its listener's list. */
  ghost predicate GoodConnection(s: Fds, c: int, l: int, lo: nat, hi: nat) {
    !(lo <= c <= hi) && IsListener(s, l) && c in ActiveAt(s, l)
  }

  ghost predicate Consistent(s: Fds, lo: nat, hi: nat) {
    && (forall l | IsListener(s, l) :: GoodListener(s, l, lo, hi))
    && (forall c, l | IsConnection(s, c, l) :: GoodConnection(s, c, l, lo, hi))
  }

  function Accepted(s: Fds, l: nat, i: nat, fd: nat): (t: Fds)
    requires IsListener(s, l) && i < |s[l].value.list| && fd < |s|
    ensures |t| == |s|
  {
    var e := s[l].value;
    s[l := Some(e.(list := e.list[i := fd], count := e.count + 1))][fd := Some(Connection(l))]
  }

  function Closed(s: Fds, l: nat, i: nat): (t: Fds)
    requires IsListener(s, l) && i < |s[l].value.list| && 0 <= s[l].value.list[i] < |s|
    ensures |t| == |s|
  {
    var e := s[l].value;
    s[l := Some(e.(list := e.list[i := INVALID_SOCKET], count := e.count - 1))][e.list[i] := None]
  }

  lemma AcceptKeeps(s: Fds, l: nat, i: nat, fd: nat, lo: nat, hi: nat)
    requires Consistent(s, lo, hi) && IsListener(s, l) && s[l].value.stream
    requires i < |s[l].value.list| - 1 && s[l].value.list[i] == INVALID_SOCKET
    requires fd < |s| && s[fd].None? && !(lo <= fd <= hi)
    ensures Consistent(Accepted(s, l, i, fd), lo, hi)
  {
    hide Active;
    var t, list := Accepted(s, l, i, fd), s[l].value.list;
    assert GoodListener(s, l, lo, hi);
    InActive(list, fd);
    assert fd !in list by {
      if fd in ActiveAt(s, l) {
        assert IsConnection(s, fd, l);
      }
    }
    ActiveUpdate(list, i, fd);
    forall m | IsListener(t, m)
      ensures GoodListener(t, m, lo, hi)
    {
      assert IsListener(s, m) && GoodListener(s, m, lo, hi);
    }
    forall c, m | IsConnection(t, c, m)
      ensures GoodConnection(t, c, m, lo, hi)
    {
      if c != fd {
        assert IsConnection(s, c, m) && GoodConnection(s, c, m, lo, hi);
      }
    }
  }

  lemma CloseKeeps(s: Fds, l: nat, i: nat, lo: nat, hi: nat)
    requires Consistent(s, lo, hi) && IsListener(s, l) && i < |s[l].value.list| && s[l].value.list[i] != INVALID_SOCKET
    ensures IsConnection(s, s[l].value.list[i], l)
    ensures Consistent(Closed(s, l, i), lo, hi)
  {
    hide Active;
    var list := s[l].value.list;
    var fd := list[i];
    InActive(list, fd);
    assert GoodListener(s, l, lo, hi) && IsConnection(s, fd, l);
    var t := Closed(s, l, i);
    ActiveUpdate(list, i, INVALID_SOCKET);
    forall m | IsListener(t, m)
      ensures GoodListener(t, m, lo, hi)
    {
      assert IsListener(s, m) && GoodListener(s, m, lo, hi);
    }
    forall c, m | IsConnection(t, c, m)
      ensures GoodConnection(t, c, m, lo, hi)
    {
      assert IsConnection(s, c, m) && GoodConnection(s, c, m, lo, hi);
    }
  }

  ghost function Registered(s: Fds): set<int> {
    set fd | 0 <= fd < |s| && s[fd].Some?
  }

  /** Apart from a listener and one more socket the two tables are the same; the listener is the same but
      for its list and count. */
  ghost predicate SameElsewhere(s: Fds, t: Fds, l: nat, fd: nat) {
    && |s| == |t| && fd != l && IsListener(s, l) && IsListener(t, l) && s[l].value.stream == t[l].value.stream
    && forall i | 0 <= i < |s| && i != l && i != fd :: t[i] == s[i]
  }

  /** The new socket is registered as a connection of the listener, which lists it besides those it
      listed before, and counts one more. */
  ghost predicate Joins(s: Fds, t: Fds, l: nat, fd: nat) {
    && SameElsewhere(s, t, l, fd)
    && Registered(t) == Registered(s) + {fd} && fd !in Registered(s) && IsConnection(t, fd, l)
    && t[l].value.count == s[l].value.count + 1
    && forall c :: c in ActiveAt(t, l) <==> c in ActiveAt(s, l) || c == fd
  }

  /** The socket is registered no more, nor listed, and the listener counts one less. */
  ghost predicate Leaves(s: Fds, t: Fds, l: nat, fd: nat) {
    && SameElsewhere(s, t, l, fd)
    && Registered(t) == Registered(s) - {fd} && IsConnection(s, fd, l)
    && t[l].value.count == s[l].value.count - 1 && fd !in t[l].value.list
    && forall c :: c in ActiveAt(t, l) <==> c in ActiveAt(s, l) && c != fd
  }

  lemma AcceptJoins(s: Fds, l: nat, i: nat, fd: nat, lo: nat, hi: nat)
    requires Consistent(s, lo, hi) && IsListener(s, l) && i < |s[l].value.list| && s[l].value.list[i] == INVALID_SOCKET
    requires fd < |s| && s[fd].None?
    ensures Joins(s, Accepted(s, l, i, fd), l, fd)
  {
    hide Active;
    var list := s[l].value.list;
    assert GoodListener(s, l, lo, hi);
    InActive(list, fd);
    assert fd !in list by {
      if fd in ActiveAt(s, l) {
        assert IsConnection(s, fd, l);
      }
    }
    ActiveUpdate(list, i, fd);
    forall c
      ensures c in Active(list[i := fd]) <==> c in Active(list) || c == fd
    {
      InActive(list, c);
    }
  }

  lemma CloseLeaves(s: Fds, l: nat, i: nat, lo: nat, hi: nat)
    requires Consistent(s, lo, hi) && IsListener(s, l) && i < |s[l].value.list| && s[l].value.list[i] != INVALID_SOCKET
    ensures 0 <= s[l].value.list[i] < |s| && Leaves(s, Closed(s, l, i), l, s[l].value.list[i])
  {
    hide Active;
    var list := s[l].value.list;
    var fd := list[i];
    InActive(list, fd);
    assert GoodListener(s, l, lo, hi) && IsConnection(s, fd, l);
    ActiveUpdate(list, i, INVALID_SOCKET);
    InActive(list[i := INVALID_SOCKET], fd);
  }

  /** A full prefix leaves room behind it as long as the count is not at its limit. */
  lemma RoomBehind(list: seq<int>, i: nat)
    requires i <= |list| && INVALID_SOCKET !in list[..i] && |Active(list)| < |list| - 1
    ensures i < |list| - 1
  {
    assert list == list[..i] + list[i..];
    ActiveAppend(list[..i], list[i..]);
    AllActive(list[..i]);
  }

  method FirstUnused(list: seq<int>) returns (i: nat)
    requires |Active(list)| < |list| - 1
    ensures i < |list| - 1 && list[i] == INVALID_SOCKET && INVALID_SOCKET !in list[..i]
  {
    hide Active;
    i := 0;
    RoomBehind(list, i);
    while list[i] != INVALID_SOCKET
      invariant i < |list| - 1 && INVALID_SOCKET !in list[..i]
      decreases |list| - i
    {
      i := i + 1;
      RoomBehind(list, i);
    }
  }

  class Table {
    const fds: array<Option<Entry>>   // g_fds_array
    const lo: nat                     // the range of the listeners
    const hi: nat

    ghost predicate Valid()
      reads fds
    {
      lo <= hi < fds.Length && Consistent(fds[..], lo, hi)
    }

    /** Listening sockets, each with whether it is a stream socket; nothing is accepted yet. */
    constructor (maxFds: nat, sockets: map<int, bool>, lo: nat, hi: nat)
      requires lo <= hi < maxFds && forall fd | fd in sockets :: lo <= fd <= hi
      ensures Valid() && fresh(fds) && this.lo == lo && this.hi == hi && fds.Length == maxFds
      ensures forall fd | 0 <= fd < maxFds :: IsListener(fds[..], fd) <==> fd in sockets
      ensures forall c, l :: !IsConnection(fds[..], c, l)
    {
      this.lo, this.hi := lo, hi;
      var unused := seq(maxFds, i => INVALID_SOCKET);
      fds := new Option<Entry>[maxFds](fd => if fd in sockets then Some(Listener(sockets[fd], unused, 0)) else None);
      new;
      NoneActive(unused);
      forall l | IsListener(fds[..], l)
        ensures GoodListener(fds[..], l, lo, hi)
      {
      }
    }

    /** server_accept: newFd is what accept() returns, prepared whether the socket could be set up.
        The connection goes to the first unused place of the listener's list. */
    method Accept(ifd: nat, newFd: int, prepared: bool) returns (active: int, ghost place: nat)
      requires Valid() && ifd < fds.Length
      requires 0 <= newFd < fds.Length ==> fds[newFd].None? && !(lo <= newFd <= hi)
      modifies fds
      ensures Valid()
      ensures if !(IsListener(old(fds[..]), ifd) && old(fds[ifd]).value.stream) then
                active == (if old(fds[ifd]).None? then INVALID_SOCKET else ifd) && fds[..] == old(fds[..])
              else if 0 <= newFd < fds.Length && prepared && old(fds[ifd]).value.count < fds.Length - 1 then
                && active == newFd
                && place < |old(fds[ifd]).value.list|
                && old(fds[ifd]).value.list[place] == INVALID_SOCKET
                && INVALID_SOCKET !in old(fds[ifd]).value.list[..place]
                && fds[..] == Accepted(old(fds[..]), ifd, place, newFd)
                && Joins(old(fds[..]), fds[..], ifd, newFd)
              else
                active == INVALID_SOCKET && fds[..] == old(fds[..])
    {
      hide Active;
      active, place := ifd, 0;
      if fds[ifd].None? {
        return INVALID_SOCKET, 0;
      }
      if fds[ifd].value.Listener? && fds[ifd].value.stream {
        var e := fds[ifd].value;
        assert IsListener(fds[..], ifd) && GoodListener(fds[..], ifd, lo, hi);
        if newFd < 0 {
          return INVALID_SOCKET, 0;
        }
        active := INVALID_SOCKET;
        if newFd < fds.Length && e.count < fds.Length - 1 && prepared {
          var i := FirstUnused(e.list);
          AcceptKeeps(fds[..], ifd, i, newFd, lo, hi);
          AcceptJoins(fds[..], ifd, i, newFd, lo, hi);
          ghost var after := Accepted(fds[..], ifd, i, newFd);
          fds[ifd] := Some(e.(list := e.list[i := newFd], count := e.count + 1));
          fds[newFd] := Some(Connection(ifd));
          assert fds[..] == after;
          active, place := newFd, i;
        }
      }
    }

    /** close_ifd: the connection leaves its listener's list and the table. */
    method Close(fd: nat, ifd: nat) returns (ghost place: nat)
      requires Valid() && IsListener(fds[..], fd)
      modifies fds
      ensures Valid()
      ensures if ifd in old(fds[fd]).value.list then
                && place < |old(fds[fd]).value.list| && old(fds[fd]).value.list[place] == ifd < fds.Length
                && fds[..] == Closed(old(fds[..]), fd, place)
                && Leaves(old(fds[..]), fds[..], fd, ifd)
              else fds[..] == old(fds[..])
    {
      hide Active;
      var e := fds[fd].value;
      assert GoodListener(fds[..], fd, lo, hi);
      var i := 0;
      place := 0;
      while i < fds.Length
        invariant 0 <= i <= fds.Length && ifd !in e.list[..i] && fds[..] == old(fds[..])
      {
        if e.list[i] == ifd {
          CloseKeeps(fds[..], fd, i, lo, hi);
          CloseLeaves(fds[..], fd, i, lo, hi);
          ghost var after := Closed(fds[..], fd, i);
          fds[fd] := Some(e.(list := e.list[i := INVALID_SOCKET], count := e.count - 1));
          fds[ifd] := None;
          assert fds[..] == after;
          place := i;
          return;
        }
        i := i + 1;
      }
    }
  }

  /** A reply that meets a closed connection: the connection is closed where the reply was sent, and
      again where the message was received.  The second time it is not in the list any more. */
  method CloseAfterReply(t: Table, fd: nat, ifd: nat) returns (ghost place: nat)
    requires t.Valid() && IsListener(t.fds[..], fd) && IsConnection(t.fds[..], ifd, fd)
    modifies t.fds
    ensures t.Valid() && IsListener(t.fds[..], fd)
    ensures place < |old(t.fds[fd]).value.list| && old(t.fds[fd]).value.list[place] == ifd
    ensures t.fds[..] == Closed(old(t.fds[..]), fd, place)
  {
    hide Active, Consistent;
    InList(t, fd, ifd);
    place := t.Close(fd, ifd);
    NotInList(t, fd, ifd);
    var again := t.Close(fd, ifd);
  }

  lemma InList(t: Table, fd: nat, ifd: nat)
    requires t.Valid() && IsListener(t.fds[..], fd) && IsConnection(t.fds[..], ifd, fd)
    ensures ifd in t.fds[fd].value.list && ifd != fd
  {
    hide Active;
    assert GoodConnection(t.fds[..], ifd, fd, t.lo, t.hi);
    InActive(t.fds[fd].value.list, ifd);
  }

  lemma NotInList(t: Table, fd: nat, ifd: nat)
    requires t.Valid() && IsListener(t.fds[..], fd) && ifd < t.fds.Length && t.fds[ifd] == None
    ensures ifd !in t.fds[fd].value.list
  {
    hide Active;
    InActive(t.fds[fd].value.list, ifd);
    assert GoodListener(t.fds[..], fd, t.lo, t.hi);
  }

  lemma {:induction false} NoneActive(list: seq<int>)
    requires forall i | 0 <= i < |list| :: list[i] == INVALID_SOCKET
    ensures Active(list) == []
  {
    if list != [] {
      NoneActive(list[..|list| - 1]);
    }
  }

  // --- what is watched ---

  /** The scan of a listener's list: it ends as soon as it has seen as many sockets as the count
      says, so it stops before the last place, as the program asserts. */
  method Scan(list: seq<int>, count: int) returns (found: seq<int>)
    requires count == |Active(list)| && list != [] && list[|list| - 1] == INVALID_SOCKET
    ensures found == Active(list)
  {
    hide Active;
    var i, left := 0, count;
    found := [];
    ScanStep(list, 0);
    while left != 0
      invariant 0 <= i < |list| && 0 <= left
      invariant found == Active(list[..i]) && left == |Active(list[i..])|
      invariant Active(list) == found + Active(list[i..])
      decreases |list| - i
    {
      ScanStep(list, i);
      if list[i] != INVALID_SOCKET {
        found := found + [list[i]];
        left := left - 1;
      }
      i := i + 1;
      assert i < |list|;
    }
  }

  lemma ScanStep(list: seq<int>, i: nat)
    requires i < |list|
    ensures Active(list[..i + 1]) == Active(list[..i]) + One(list[i])
    ensures Active(list[i..]) == One(list[i]) + Active(list[i + 1..])
    ensures i == |list| - 1 ==> Active(list[i + 1..]) == []
    ensures Active(list[..0]) == [] && list[0..] == list
  {
    assert list[..i + 1][..i] == list[..i];
    assert list[i..] == [] + [list[i]] + list[i + 1..];
    ActiveSplit([], list[i], list[i + 1..]);
  }

  ghost function Listeners(s: Fds): set<int> {
    set fd | 0 <= fd < |s| && IsListener(s, fd)
  }

  /** The connections of the listeners below k. */
  ghost function ConnectionsBelow(s: Fds, k: int): set<int> {
    set fd | 0 <= fd < |s| && s[fd].Some? && s[fd].value.Connection? && s[fd].value.listener < k
  }

  /** Going on to the next socket of the listeners' range adds exactly the connections in its list. */
  lemma NextListener(s: Fds, k: nat, lo: nat, hi: nat)
    requires Consistent(s, lo, hi) && k < |s|
    ensures ConnectionsBelow(s, k + 1) ==
            ConnectionsBelow(s, k) + if IsListener(s, k) then ToSet(ActiveAt(s, k)) else {}
    ensures IsListener(s, k) ==> GoodListener(s, k, lo, hi)
    ensures lo <= k <= hi && s[k].Some? ==> IsListener(s, k)
  {
    hide Active;
    if s[k].Some? && s[k].value.Connection? {
      assert IsConnection(s, k, s[k].value.listener);
      assert GoodConnection(s, k, s[k].value.listener, lo, hi);
    }
    forall fd | 0 <= fd < |s| && s[fd] == Some(Connection(k))
      ensures IsListener(s, k) && fd in ActiveAt(s, k)
    {
      assert IsConnection(s, fd, k) && GoodConnection(s, fd, k, lo, hi);
    }
    if IsListener(s, k) {
      assert GoodListener(s, k, lo, hi);
      forall fd | fd in ActiveAt(s, k)
        ensures fd in ConnectionsBelow(s, k + 1)
      {
        assert IsConnection(s, fd, k);
      }
    }
  }

  /** All listeners lie in the range, so that at its two ends nothing and everything is covered. */
  lemma Ends(s: Fds, lo: nat, hi: nat)
    requires Consistent(s, lo, hi)
    ensures ConnectionsBelow(s, lo) == {}
    ensures Registered(s) == Listeners(s) + ConnectionsBelow(s, hi + 1)
  {
    hide Active;
    forall c, l | IsConnection(s, c, l)
      ensures lo <= l <= hi
    {
      assert GoodConnection(s, c, l, lo, hi) && GoodListener(s, l, lo, hi);
    }
    forall fd | 0 <= fd < |s| && s[fd].Some? && s[fd].value.Connection?
      ensures lo <= s[fd].value.listener <= hi
    {
      assert IsConnection(s, fd, s[fd].value.listener);
    }
  }

  /** The bounds of a look range for a set of sockets. */
  ghost predicate Spans(start: int, end: int, lo: int, hi: int, saved: set<int>) {
    && start <= lo && hi < end
    && (forall fd | fd in saved :: start <= fd < end)
    && (start == lo || start in saved) && (end == hi + 1 || end - 1 in saved)
  }

  /** IoSelect::update: select() is given exactly the registered sockets, and the range that is
      looked at afterwards is as small as it can be. */
  method SelectUpdate(t: Table) returns (saved: set<int>, lookStart: int, lookEnd: int)
    requires t.Valid()
    ensures saved == Registered(t.fds[..])
    ensures Spans(lookStart, lookEnd, t.lo, t.hi, saved)
  {
    hide Active, Consistent, Registered, ConnectionsBelow, Listeners;
    ghost var s := t.fds[..];
    saved, lookStart, lookEnd := {}, t.lo, t.hi;
    Ends(s, t.lo, t.hi);
    ListenersBelow(s, t.lo, t.lo, t.hi);
    ghost var listeners: set<int> := {};
    for ifd := t.lo to t.hi + 1
      invariant saved == listeners + ConnectionsBelow(s, ifd)
      invariant listeners == LowListeners(s, ifd)
      invariant Spans(lookStart, lookEnd + 1, t.lo, t.hi, saved)
    {
      NextListener(s, ifd, t.lo, t.hi);
      ListenersBelow(s, ifd, t.lo, t.hi);
      if t.fds[ifd].Some? {
        var e := t.fds[ifd].value;
        saved := saved + {ifd};
        var found := Scan(e.list, e.count);
        saved, lookStart, lookEnd := Include(saved, lookStart, lookEnd, found, t.lo, t.hi);
        listeners := listeners + {ifd};
      }
    }
    lookEnd := lookEnd + 1;
    ListenersBelow(s, t.hi, t.lo, t.hi);
  }

  /** The part of the loop of IoSelect::update that handles one list. */
  method Include(saved: set<int>, start: int, end: int, found: seq<int>, ghost lo: int, ghost hi: int)
    returns (saved': set<int>, start': int, end': int)
    requires Spans(start, end + 1, lo, hi, saved)
    ensures saved' == saved + ToSet(found) && Spans(start', end' + 1, lo, hi, saved')
  {
    saved', start', end' := saved, start, end;
    assert found[..0] == [];
    for j := 0 to |found|
      invariant saved' == saved + ToSet(found[..j]) && Spans(start', end' + 1, lo, hi, saved')
    {
      var fd := found[j];
      assert found[..j + 1] == found[..j] + [fd];
      saved' := saved' + {fd};
      start' := if fd < start' then fd else start';
      end' := if fd > end' then fd else end';
    }
    assert found[..|found|] == found;
  }

  ghost function LowListeners(s: Fds, k: int): set<int> {
    set fd | 0 <= fd < |s| && IsListener(s, fd) && fd < k
  }

  lemma ListenersBelow(s: Fds, k: nat, lo: nat, hi: nat)
    requires Consistent(s, lo, hi) && lo <= k < |s|
    ensures LowListeners(s, k + 1) == LowListeners(s, k) + if IsListener(s, k) then {k} else {}
    ensures LowListeners(s, lo) == {} && LowListeners(s, hi + 1) == Listeners(s)
  {
    forall l | IsListener(s, l)
      ensures lo <= l <= hi
    {
      assert GoodListener(s, l, lo, hi);
    }
  }

  // --- poll ---

  /** Pigeonhole: different registered sockets are no more than the table has places. */
  lemma Pigeonhole(w: seq<int>, s: Fds)
    requires Distinct(w) && ToSet(w) <= Registered(s)
    ensures |w| <= |s|
  {
    DistinctSize(w);
    assert ToSet(w) <= Range(0, |s|);
    SubsetSize(ToSet(w), Range(0, |s|));
  }

  lemma ToSetNext(w: seq<int>, fd: int)
    ensures ToSet(w + [fd]) == ToSet(w) + {fd}
    ensures Distinct(w) && fd !in w ==> Distinct(w + [fd])
  {
    forall x
      ensures x in w + [fd] <==> x in w || x == fd
    {
    }
  }

  /** IoPoll::prepareNetwork: the listeners, in order. */
  method PollPrepare(t: Table, arr: array<int>) returns (n: nat)
    requires t.Valid() && arr.Length == t.fds.Length
    modifies arr
    ensures n <= arr.Length && Distinct(arr[..n]) && ToSet(arr[..n]) == Listeners(t.fds[..])
  {
    hide Active, Consistent, Listeners, LowListeners;
    ghost var s := t.fds[..];
    n := 0;
    assert arr[..0] == [];
    ListenersBelow(s, t.lo, t.lo, t.hi);
    for ifd := t.lo to t.hi + 1
      invariant n <= ifd && t.fds[..] == s
      invariant Distinct(arr[..n]) && ToSet(arr[..n]) == LowListeners(s, ifd)
      invariant forall i | 0 <= i < n :: arr[i] < ifd
    {
      NextListener(s, ifd, t.lo, t.hi);
      ListenersBelow(s, ifd, t.lo, t.hi);
      if t.fds[ifd].Some? {
        ToSetNext(arr[..n], ifd);
        ghost var w := arr[..n];
        arr[n] := ifd;
        assert arr[..n + 1] == w + [ifd];
        n := n + 1;
      }
    }
    ListenersBelow(s, t.hi, t.lo, t.hi);
  }

  /** IoPoll::update: behind the listeners come all connections, each once, and the array has room
      for them. */
  method PollUpdate(t: Table, arr: array<int>, fdNum: nat) returns (lookEnd: nat)
    requires t.Valid() && arr.Length == t.fds.Length && fdNum <= arr.Length
    requires Distinct(arr[..fdNum]) && ToSet(arr[..fdNum]) == Listeners(t.fds[..])
    modifies arr
    ensures fdNum <= lookEnd <= arr.Length && arr[..fdNum] == old(arr[..fdNum])
    ensures Distinct(arr[..lookEnd]) && ToSet(arr[..lookEnd]) == Registered(t.fds[..])
  {
    hide Active, Consistent, Registered, Listeners, ConnectionsBelow;
    ghost var s := t.fds[..];
    lookEnd := fdNum;
    Ends(s, t.lo, t.hi);
    for ifd := t.lo to t.hi + 1
      invariant fdNum <= lookEnd <= arr.Length && t.fds[..] == s && arr[..fdNum] == old(arr[..fdNum])
      invariant Distinct(arr[..lookEnd]) && ToSet(arr[..lookEnd]) == Listeners(s) + ConnectionsBelow(s, ifd)
    {
      NextListener(s, ifd, t.lo, t.hi);
      if t.fds[ifd].Some? {
        var e := t.fds[ifd].value;
        var found := Scan(e.list, e.count);
        NewConnections(s, ifd, t.lo, t.hi);
        lookEnd := Extend(arr, lookEnd, fdNum, found, s);
      }
    }
  }

  /** The connections of a listener are registered and not among the sockets handled before it. */
  lemma NewConnections(s: Fds, k: nat, lo: nat, hi: nat)
    requires Consistent(s, lo, hi) && IsListener(s, k)
    ensures Distinct(ActiveAt(s, k)) && ToSet(ActiveAt(s, k)) !! Listeners(s) + ConnectionsBelow(s, k)
    ensures Listeners(s) + ConnectionsBelow(s, k) + ToSet(ActiveAt(s, k)) <= Registered(s)
  {
    hide Active;
    assert GoodListener(s, k, lo, hi);
    forall c | c in ActiveAt(s, k)
      ensures IsConnection(s, c, k)
    {
    }
  }

  /** The part of the loop of IoPoll::update that handles one list. */
  method Extend(arr: array<int>, start: nat, ghost fdNum: nat, found: seq<int>, ghost s: Fds) returns (end: nat)
    requires fdNum <= start <= arr.Length == |s| && Distinct(arr[..start]) && Distinct(found)
    requires ToSet(found) !! ToSet(arr[..start]) && ToSet(arr[..start]) + ToSet(found) <= Registered(s)
    modifies arr
    ensures start <= end <= arr.Length && arr[..fdNum] == old(arr[..fdNum])
    ensures Distinct(arr[..end]) && ToSet(arr[..end]) == ToSet(old(arr[..start])) + ToSet(found)
  {
    hide Registered;
    end := start;
    ghost var before := ToSet(arr[..start]);
    assert found[..0] == [];
    for j := 0 to |found|
      invariant start <= end <= arr.Length && arr[..fdNum] == old(arr[..fdNum])
      invariant Distinct(arr[..end]) && ToSet(arr[..end]) == before + ToSet(found[..j])
    {
      var fd := found[j];
      assert found[..j + 1] == found[..j] + [fd];
      ToSetNext(found[..j], fd);
      ghost var w := arr[..end];
      assert fd in ToSet(found) && fd !in ToSet(w);
      ToSetNext(w, fd);
      assert ToSet(w + [fd]) <= before + ToSet(found);
      Pigeonhole(w + [fd], s);
      arr[end] := fd;
      assert arr[..end + 1] == w + [fd];
      end := end + 1;
    }
    assert found[..|found|] == found;
  }
}
