// The rotation of IoRecvfromMUX (src/iohandlers.h): sockets are received from in turn, without asking
// the kernel which of them are ready.
module RecvfromMux {
  import opened Options
  import opened Sets
  import opened ConnectionTable

  /** A socket to receive from: registered, and not a listener with connections. */
  predicate Eligible(s: Fds, fd: int) {
    0 <= fd < |s| && s[fd].Some? && (s[fd].value.Connection? || s[fd].value.count == 0)
  }

  /** The eligible sockets from lo to hi, in increasing order. */
  function List(s: Fds, lo: int, hi: int): seq<int>
    decreases hi - lo
  {
    if hi < lo then [] else List(s, lo, hi - 1) + if Eligible(s, hi) then [hi] else []
  }

  lemma {:induction false} ListMeans(s: Fds, lo: int, hi: int)
    ensures forall fd :: fd in List(s, lo, hi) <==> lo <= fd <= hi && Eligible(s, fd)
    ensures forall i, j | 0 <= i < j < |List(s, lo, hi)| :: List(s, lo, hi)[i] < List(s, lo, hi)[j]
    decreases hi - lo
  {
    if lo <= hi {
      ListMeans(s, lo, hi - 1);
      var init := List(s, lo, hi - 1);
      forall i | 0 <= i < |init|
        ensures init[i] < hi
      {
        assert init[i] in init;
      }
    }
  }

  lemma {:induction false} ListPrefix(s: Fds, lo: int, m: int, hi: int)
    requires m <= hi
    ensures |List(s, lo, m)| <= |List(s, lo, hi)| && List(s, lo, m) == List(s, lo, hi)[..|List(s, lo, m)|]
    decreases hi - m
  {
    if m < hi {
      ListPrefix(s, lo, m, hi - 1);
    }
  }

  // --- one call ---

  function Advance(look: int, lo: int, hi: int): int {
    if look + 1 > hi then lo else look + 1
  }

  /** How many eligible sockets come before or at the current one. */
  function Behind(s: Fds, lo: int, hi: int, look: int): nat {
    |List(s, lo, if look < hi then look else hi)|
  }

  /** The next eligible socket in the circle. */
  function Next(s: Fds, lo: int, hi: int, look: int): int
    requires List(s, lo, hi) != []
  {
    var i, all := Behind(s, lo, hi, look), List(s, lo, hi);
    if i < |all| then all[i] else all[0]
  }

  /** Going on by one socket finds the next one or does not lose it. */
  lemma StepNext(s: Fds, lo: int, hi: int, look: int)
    requires lo - 1 <= look && lo <= hi && List(s, lo, hi) != []
    ensures var y := Advance(look, lo, hi);
            if Eligible(s, y) then y == Next(s, lo, hi, look) else Next(s, lo, hi, y) == Next(s, lo, hi, look)
  {
    var all := List(s, lo, hi);
    if look + 1 <= hi {
      var y := look + 1;
      ListPrefix(s, lo, y, hi);
      assert List(s, lo, y) == List(s, lo, look) + if Eligible(s, y) then [y] else [];
      if Eligible(s, y) {
        assert all[|List(s, lo, look)|] == List(s, lo, y)[|List(s, lo, look)|] == y;
      }
    } else {
      ListPrefix(s, lo, lo, hi);
      assert List(s, lo, lo) == List(s, lo, lo - 1) + if Eligible(s, lo) then [lo] else [];
      assert List(s, lo, lo - 1) == [];
      if Eligible(s, lo) {
        assert all[0] == List(s, lo, lo)[0] == lo;
      }
    }
  }

  /** The index of the next socket, and how many are behind once it is the current one. */
  lemma NextIndex(s: Fds, lo: int, hi: int, look: int)
    requires List(s, lo, hi) != []
    ensures var k, i := |List(s, lo, hi)|, Behind(s, lo, hi, look);
            var j := if i < k then i else 0;
            && i <= k
            && lo <= Next(s, lo, hi, look) <= hi
            && Next(s, lo, hi, look) == List(s, lo, hi)[j]
            && Behind(s, lo, hi, Next(s, lo, hi, look)) == j + 1
  {
    var all, i := List(s, lo, hi), Behind(s, lo, hi, look);
    ListPrefix(s, lo, if look < hi then look else hi, hi);
    ListMeans(s, lo, hi);
    var j := if i < |all| then i else 0;
    assert all[j] in all;
    BehindOf(s, lo, hi, j);
  }

  /** The first sockets of the list are those up to the current one. */
  lemma ListSplits(s: Fds, lo: int, m: int, hi: int, k: nat)
    requires lo - 1 <= m <= hi && k < |List(s, lo, hi)|
    ensures List(s, lo, hi)[k] <= m <==> k < |List(s, lo, m)|
  {
    hide List, Eligible;
    var all, low := List(s, lo, hi), List(s, lo, m);
    ListPrefix(s, lo, m, hi);
    ListMeans(s, lo, hi);
    ListMeans(s, lo, m);
    assert all[k] in all;
    if k < |low| {
      assert low[k] in low;
    } else {
      assert all[k] !in low;
    }
  }

  /** No eligible socket is passed over. */
  lemma NextSkipsNone(s: Fds, lo: int, hi: int, look: int, fd: int)
    requires lo - 1 <= look && List(s, lo, hi) != []
    requires lo <= fd <= hi && Eligible(s, fd)
    ensures look < fd ==> look < Next(s, lo, hi, look) <= fd
    ensures List(s, lo, hi)[0] <= fd
  {
    hide List, Next, Eligible;
    var all, m := List(s, lo, hi), if look < hi then look else hi;
    ListMeans(s, lo, hi);
    NextIndex(s, lo, hi, look);
    assert fd in all;
    var k: nat :| k < |all| && all[k] == fd;
    ListSplits(s, lo, m, hi, k);
    if look < fd {
      ListSplits(s, lo, m, hi, |List(s, lo, m)|);
    }
  }

  /** With no eligible socket after the current one, the next is the first of all. */
  lemma NextWraps(s: Fds, lo: int, hi: int, look: int)
    requires lo - 1 <= look && List(s, lo, hi) != []
    requires forall fd | look < fd <= hi :: !Eligible(s, fd)
    ensures Next(s, lo, hi, look) == List(s, lo, hi)[0]
  {
    hide List, Next, Eligible;
    var all, m := List(s, lo, hi), if look < hi then look else hi;
    ListMeans(s, lo, hi);
    NextIndex(s, lo, hi, look);
    var i := Behind(s, lo, hi, look);
    if i < |all| {
      assert all[i] in all;
      ListSplits(s, lo, m, hi, i);
    }
  }

  /** The next socket is the first eligible one after the current one, or, if there is none, the first
      of all. */
  lemma NextMeans(s: Fds, lo: int, hi: int, look: int)
    requires lo - 1 <= look && List(s, lo, hi) != []
    ensures var n := Next(s, lo, hi, look);
            && lo <= n <= hi && Eligible(s, n)
            && if exists fd :: look < fd <= hi && Eligible(s, fd) then
                 look < n && forall fd | look < fd <= hi && Eligible(s, fd) :: n <= fd
               else forall fd | lo <= fd <= hi && Eligible(s, fd) :: n <= fd
  {
    hide List, Next, Eligible;
    var all, n := List(s, lo, hi), Next(s, lo, hi, look);
    ListMeans(s, lo, hi);
    NextIndex(s, lo, hi, look);
    assert n in all;
    forall fd | lo <= fd <= hi && Eligible(s, fd)
      ensures look < fd ==> look < n <= fd
      ensures all[0] <= fd
    {
      NextSkipsNone(s, lo, hi, look, fd);
    }
    if !exists fd :: look < fd <= hi && Eligible(s, fd) {
      NextWraps(s, lo, hi, look);
    }
  }

  /** A socket that is next and still ahead keeps its turn in any other range that holds it. */
  lemma KeepsTurn(s: Fds, lo: int, hi: int, lo': int, hi': int, look: int)
    requires lo - 1 <= look && lo' - 1 <= look && List(s, lo, hi) != []
    requires look < Next(s, lo, hi, look) <= hi'
    ensures List(s, lo', hi') != [] && Next(s, lo', hi', look) == Next(s, lo, hi, look)
  {
    hide Next, List, Eligible;
    NextMeans(s, lo, hi, look);
    ListMeans(s, lo', hi');
    assert Next(s, lo, hi, look) in List(s, lo', hi');
    NextMeans(s, lo', hi', look);
  }

  /** After an update the range holds every eligible socket, so the one whose turn it is keeps it. */
  lemma TurnInUpdate(s: Fds, lo: int, hi: int, start: int, end: int, fdMin: int, fdMax: int, look: int)
    requires Spans(start, end + 1, fdMin, fdMax, Registered(s)) && lo - 1 <= look && fdMin <= look
    requires List(s, lo, hi) != [] && look < Next(s, lo, hi, look)
    ensures List(s, start, end) != [] && Next(s, start, end, look) == Next(s, lo, hi, look)
  {
    hide Next, List;
    NextMeans(s, lo, hi, look);
    assert Next(s, lo, hi, look) in Registered(s);
    KeepsTurn(s, lo, hi, start, end, look);
  }

  lemma BehindOf(s: Fds, lo: int, hi: int, j: nat)
    requires j < |List(s, lo, hi)|
    ensures Behind(s, lo, hi, List(s, lo, hi)[j]) == j + 1
  {
    var all := List(s, lo, hi);
    ListMeans(s, lo, hi);
    var fd := all[j];
    assert fd in all;
    var low := List(s, lo, fd);
    ListPrefix(s, lo, fd, hi);
    ListMeans(s, lo, fd);
    assert fd in low;
    var p :| 0 <= p < |low| && low[p] == fd;
    assert all[p] == fd;
    assert p == j;
    assert low[|low| - 1] in low;
  }

  class IoRecvfromMUX {
    const fdMin: nat
    const fdMax: nat
    var fdMinAll: int     // m_fd_min_all
    var fdMaxAll: int     // m_fd_max_all
    var look: int         // m_look_start

    ghost predicate Valid()
      reads this
    {
      fdMinAll <= fdMin <= fdMax <= fdMaxAll && fdMinAll - 1 <= look
    }

    constructor (fdMin: nat, fdMax: nat, fdNum: nat)
      requires fdMin <= fdMax
      ensures Valid() && fdMinAll == this.fdMin == fdMin && fdMaxAll == this.fdMax == fdMax
      ensures look == if fdNum == 1 then fdMin else fdMin - 1
    {
      this.fdMin, this.fdMax := fdMin, fdMax;
      fdMinAll, fdMaxAll := fdMin, fdMax;
      look := if fdNum == 1 then fdMin else fdMin - 1;
    }

    /** waitArrival.  It ends if there is an eligible socket, and it selects the next one. */
    method WaitArrival(s: Fds)
      requires Valid() && List(s, fdMinAll, fdMaxAll) != []
      modifies this`look
      ensures Valid() && look == Next(s, fdMinAll, fdMaxAll, old(look)) && Eligible(s, look)
    {
      hide Next, List;
      ghost var next := Next(s, fdMinAll, fdMaxAll, look);
      NextIndex(s, fdMinAll, fdMaxAll, look);
      StepNext(s, fdMinAll, fdMaxAll, look);
      look := Advance(look, fdMinAll, fdMaxAll);
      while !Eligible(s, look)
        invariant fdMinAll <= look <= fdMaxAll && fdMinAll <= next <= fdMaxAll
        invariant if Eligible(s, look) then look == next else Next(s, fdMinAll, fdMaxAll, look) == next
        decreases if look <= next then next - look else fdMaxAll - look + 1 + next - fdMinAll + 1
      {
        NextIsAhead(s, fdMinAll, fdMaxAll, look);
        StepNext(s, fdMinAll, fdMaxAll, look);
        look := Advance(look, fdMinAll, fdMaxAll);
      }
    }

    static lemma NextIsAhead(s: Fds, lo: int, hi: int, look: int)
      requires List(s, lo, hi) != [] && lo <= look <= hi && !Eligible(s, look)
      ensures Next(s, lo, hi, look) != look
    {
      NextIndex(s, lo, hi, look);
      ListMeans(s, lo, hi);
      assert Next(s, lo, hi, look) in List(s, lo, hi);
    }

    /** As many calls as there are eligible sockets: they select all of them, starting with the one
        after the current one. */
    method SelectAll(s: Fds) returns (selected: seq<int>)
      requires Valid() && List(s, fdMinAll, fdMaxAll) != []
      modifies this`look
      ensures Valid()
      ensures var all, i := List(s, fdMinAll, fdMaxAll), Behind(s, fdMinAll, fdMaxAll, old(look));
              i <= |all| && selected == all[i..] + all[..i]
    {
      hide Next, List, Behind;
      ghost var all, i := List(s, fdMinAll, fdMaxAll), Behind(s, fdMinAll, fdMaxAll, look);
      NextIndex(s, fdMinAll, fdMaxAll, look);
      var k := |List(s, fdMinAll, fdMaxAll)|;
      ghost var wanted := all[i..] + all[..i];
      selected := [];
      for t := 0 to k
        invariant Valid() && selected == wanted[..t]
        invariant Behind(s, fdMinAll, fdMaxAll, look) == if i + t <= k then i + t else i + t - k
      {
        NextIndex(s, fdMinAll, fdMaxAll, look);
        WaitArrival(s);
        assert wanted[t] == if i + t < k then all[i + t] else all[i + t - k];
        selected := selected + [look];
      }
    }

    /** update: the range comes to span all registered sockets. */
    method Update(t: Table)
      requires Valid() && t.Valid() && fdMin == t.lo && fdMax == t.hi
      modifies this
      ensures Valid() && Spans(fdMinAll, fdMaxAll + 1, fdMin, fdMax, Registered(t.fds[..]))
      ensures look == if fdMin <= old(look) < fdMax then old(look)
                      else if old(look) == fdMax then fdMinAll - 1 else fdMax
      ensures fdMin <= old(look) < fdMax && List(t.fds[..], old(fdMinAll), old(fdMaxAll)) != [] ==>
                var next := Next(t.fds[..], old(fdMinAll), old(fdMaxAll), old(look));
                old(look) < next ==>
                  && List(t.fds[..], fdMinAll, fdMaxAll) != []
                  && Next(t.fds[..], fdMinAll, fdMaxAll, look) == next
    {
      hide Next, List, Registered;
      var saved, start, end := SelectUpdate(t);
      fdMinAll, fdMaxAll := start, end - 1;
      if look > fdMax || look < fdMin {
        look := fdMax;
      } else if look == fdMax {
        look := fdMinAll - 1;
      }
      ghost var s, lo, hi := t.fds[..], old(fdMinAll), old(fdMaxAll);
      if fdMin <= old(look) < fdMax && List(s, lo, hi) != [] && old(look) < Next(s, lo, hi, old(look)) {
        TurnInUpdate(s, lo, hi, fdMinAll, fdMaxAll, fdMin, fdMax, look);
      }
    }
  }

  /** So every eligible socket is selected exactly once by them. */
  lemma EachOnce(s: Fds, lo: int, hi: int, i: nat, fd: int)
    requires i <= |List(s, lo, hi)|
    ensures var all := List(s, lo, hi);
            multiset(all[i..] + all[..i])[fd] == if lo <= fd <= hi && Eligible(s, fd) then 1 else 0
  {
    var all := List(s, lo, hi);
    assert all == all[..i] + all[i..];
    ListMeans(s, lo, hi);
    Once(all, fd);
  }

  lemma {:induction false} Once(all: seq<int>, fd: int)
    requires Distinct(all)
    ensures multiset(all)[fd] == if fd in all then 1 else 0
  {
    if all != [] {
      var init := all[..|all| - 1];
      assert all == init + [all[|all| - 1]];
      Once(init, fd);
    }
  }

  // --- when the search ends ---

  function Position(look: int, lo: int, hi: int, n: nat): int {
    if n == 0 then look else Advance(Position(look, lo, hi, n - 1), lo, hi)
  }

  /** The search gets to an eligible socket exactly if there is one in the range. */
  lemma EndsExactly(s: Fds, look: int, lo: int, hi: int)
    requires lo - 1 <= look && lo <= hi
    ensures (exists n: nat :: n > 0 && Eligible(s, Position(look, lo, hi, n))) <==>
            (exists fd :: lo <= fd <= hi && Eligible(s, fd))
  {
    if n: nat :| n > 0 && Eligible(s, Position(look, lo, hi, n)) {
      InRange(look, lo, hi, n);
    }
    if fd :| lo <= fd <= hi && Eligible(s, fd) {
      if look < fd {
        Straight(look, lo, hi, fd - look);
      } else {
        var wrap := if look < hi then hi - look + 1 else 1;
        if look < hi {
          Straight(look, lo, hi, hi - look);
        }
        Onwards(look, lo, hi, wrap, fd - lo);
        assert Position(look, lo, hi, wrap + (fd - lo)) == fd;
      }
    }
  }

  lemma {:induction false} InRange(look: int, lo: int, hi: int, n: nat)
    requires lo - 1 <= look && lo <= hi && n > 0
    ensures lo <= Position(look, lo, hi, n) <= hi
  {
    if n > 1 {
      InRange(look, lo, hi, n - 1);
    }
  }

  lemma {:induction false} Straight(look: int, lo: int, hi: int, n: nat)
    requires look + n <= hi
    ensures Position(look, lo, hi, n) == look + n
  {
    if n > 0 {
      Straight(look, lo, hi, n - 1);
    }
  }

  lemma {:induction false} Onwards(look: int, lo: int, hi: int, m: nat, n: nat)
    requires Position(look, lo, hi, m) == lo && lo + n <= hi
    ensures Position(look, lo, hi, m + n) == lo + n
  {
    if n > 0 {
      Onwards(look, lo, hi, m, n - 1);
      assert m + n - 1 == m + (n - 1);
    }
  }

  /** After an update there always is one, as long as anything is registered: a listener with
      connections has connections to offer instead. */
  lemma AlwaysSomething(t: Table, lo: int, hi: int, fd: int)
    requires t.Valid() && Spans(lo, hi + 1, t.lo, t.hi, Registered(t.fds[..])) && fd in Registered(t.fds[..])
    ensures List(t.fds[..], lo, hi) != []
  {
    hide Active;
    var s := t.fds[..];
    ListMeans(s, lo, hi);
    if Eligible(s, fd) {
      assert fd in List(s, lo, hi);
    } else {
      assert IsListener(s, fd) && GoodListener(s, fd, t.lo, t.hi);
      var c := ActiveAt(s, fd)[0];
      assert c in ActiveAt(s, fd) && IsConnection(s, c, fd);
      assert c in Registered(s) && c in List(s, lo, hi);
    }
  }
}
