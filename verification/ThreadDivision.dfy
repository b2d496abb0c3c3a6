// The division of a server's sockets among its threads (src/server.cpp).
module ThreadDivision {
  import opened Arith

  /** How many sockets are registered from lo up to, not including, hi. */
  function Count(registered: seq<bool>, lo: nat, hi: nat): nat
    requires hi <= |registered|
  {
    if hi <= lo then 0 else Count(registered, lo, hi - 1) + if registered[hi - 1] then 1 else 0
  }

  lemma {:induction false} CountSplit(registered: seq<bool>, lo: nat, m: nat, hi: nat)
    requires lo <= m <= hi <= |registered|
    ensures Count(registered, lo, hi) == Count(registered, lo, m) + Count(registered, m, hi)
  {
    if m < hi {
      CountSplit(registered, lo, m, hi - 1);
    }
  }

  /** That is the size of their set. */
  lemma {:induction false} CountIsSize(registered: seq<bool>, lo: nat, hi: nat)
    requires hi <= |registered|
    ensures Count(registered, lo, hi) == |Between(registered, lo, hi)|
  {
    if lo < hi {
      CountIsSize(registered, lo, hi - 1);
      var before := Between(registered, lo, hi - 1);
      assert Between(registered, lo, hi) == before + if registered[hi - 1] then {hi - 1} else {};
      assert hi - 1 !in before;
    } else {
      assert Between(registered, lo, hi) == {};
    }
  }

  ghost function Between(registered: seq<bool>, lo: nat, hi: nat): set<nat>
    requires hi <= |registered|
  {
    set fd: nat | lo <= fd < hi && registered[fd]
  }

  lemma {:induction false} NoneLeft(registered: seq<bool>, lo: nat, hi: nat, fd: nat)
    requires hi <= |registered| && Count(registered, lo, hi) == 0 && lo <= fd < hi
    ensures !registered[fd]
  {
    if fd < hi - 1 {
      NoneLeft(registered, lo, hi - 1, fd);
    }
  }

  /** find_min_max_fds: the smallest range from start on that holds len sockets. */
  method FindMinMaxFds(registered: seq<bool>, start: nat, len: nat) returns (fdMin: nat, fdMax: nat)
    requires 0 < len && start <= |registered| && len <= Count(registered, start, |registered|)
    ensures start <= fdMin <= fdMax < |registered| && registered[fdMin] && registered[fdMax]
    ensures Count(registered, start, fdMin) == 0 && Count(registered, fdMin, fdMax + 1) == len
  {
    var detected, i := 0, start;
    fdMin := start;
    while detected < len
      invariant start <= i <= |registered| && 0 <= detected <= len
      invariant detected == Count(registered, start, i)
      invariant detected > 0 ==>
                  start <= fdMin < i && registered[fdMin] && Count(registered, start, fdMin) == 0
      invariant detected == len ==> i > start && registered[i - 1]
      decreases |registered| - i
    {
      CountSplit(registered, start, i, |registered|);
      assert i < |registered|;
      if registered[i] {
        if detected == 0 {
          fdMin := i;
        }
        detected := detected + 1;
      }
      i := i + 1;
    }
    CountSplit(registered, start, fdMin, i);
    fdMax := i - 1;
  }

  /** What a thread is given. */
  datatype HandlerInfo = HandlerInfo(fdNum: nat, fdMin: nat, fdMax: nat)

  predicate Holds(info: HandlerInfo, fd: int) {
    info.fdMin <= fd <= info.fdMax
  }

  /** The ranges increase, each holds as many sockets as it says, and together they hold all sockets
      below last. */
  ghost predicate Divides(infos: seq<HandlerInfo>, registered: seq<bool>, last: nat) {
    && last <= |registered|
    && (forall i | 0 <= i < |infos| ::
          && infos[i].fdMin <= infos[i].fdMax < last
          && infos[i].fdNum == Count(registered, infos[i].fdMin, infos[i].fdMax + 1))
    && (forall i, j | 0 <= i < j < |infos| :: infos[i].fdMax < infos[j].fdMin)
    && (forall fd: nat | fd < last && registered[fd] :: exists i :: 0 <= i < |infos| && Holds(infos[i], fd))
  }

  lemma DividesNext(infos: seq<HandlerInfo>, registered: seq<bool>, last: nat, info: HandlerInfo)
    requires Divides(infos, registered, last) && last <= info.fdMin <= info.fdMax < |registered|
    requires info.fdNum == Count(registered, info.fdMin, info.fdMax + 1) && Count(registered, last, info.fdMin) == 0
    ensures Divides(infos + [info], registered, info.fdMax + 1)
  {
    var all := infos + [info];
    forall fd: nat | fd < info.fdMax + 1 && registered[fd]
      ensures exists i :: 0 <= i < |all| && Holds(all[i], fd)
    {
      if fd < last {
        var i :| 0 <= i < |infos| && Holds(infos[i], fd);
        assert all[i] == infos[i];
      } else {
        if fd < info.fdMin {
          NoneLeft(registered, last, info.fdMin, fd);
        }
        assert Holds(all[|infos|], fd);
      }
    }
  }

  /** The division in server_select_per_thread.  (The program refuses more threads than sockets.) */
  method Divide(registered: seq<bool>, fdNum: nat, threads: nat) returns (infos: seq<HandlerInfo>)
    requires fdNum == Count(registered, 0, |registered|) && 1 <= threads <= fdNum
    ensures |infos| == threads && Divides(infos, registered, |registered|)
    ensures forall i | 0 <= i < threads :: fdNum / threads <= infos[i].fdNum <= fdNum / threads + 1
  {
    hide Count, Divides, Owed;
    Shares(fdNum, threads);
    infos := DivideShares(registered, fdNum / threads, fdNum % threads, threads);
  }

  /** What is left to give to the given number of threads. */
  function Owed(share: nat, threads: nat, left: nat): nat {
    share * threads + left
  }

  lemma Shares(fdNum: nat, threads: nat)
    requires 1 <= threads <= fdNum
    ensures 1 <= fdNum / threads && 0 <= fdNum % threads < threads
    ensures fdNum == Owed(fdNum / threads, threads, fdNum % threads)
  {
    FloorMono(threads, fdNum, threads);
    FloorIs(threads, threads, 1);
  }

  lemma OwedNext(share: nat, threads: nat, left: nat)
    ensures threads > 0 ==> Owed(share, threads, left) == Owed(share, threads - 1, left) + share
    ensures left > 0 ==> Owed(share, threads, left) == Owed(share, threads, left - 1) + 1
    ensures threads == 0 ==> Owed(share, threads, left) == left
  {
    assert threads > 0 ==> share * threads == share * (threads - 1) + share;
  }

  method DivideShares(registered: seq<bool>, share: nat, remainder: nat, threads: nat) returns (infos: seq<HandlerInfo>)
    requires 1 <= share && remainder < threads && Count(registered, 0, |registered|) == Owed(share, threads, remainder)
    ensures |infos| == threads && Divides(infos, registered, |registered|)
    ensures forall i | 0 <= i < threads :: share <= infos[i].fdNum <= share + 1
  {
    hide Count, Divides, Owed;
    infos := [];
    var left, last := remainder, 0;
    NothingDivided(registered);
    for i := 0 to threads
      invariant |infos| == i && last <= |registered| && Divides(infos, registered, last)
      invariant 0 <= left <= threads - i && Count(registered, last, |registered|) == Owed(share, threads - i, left)
      invariant forall j | 0 <= j < i :: share <= infos[j].fdNum <= share + 1
    {
      OwedNext(share, threads - i, left);
      OwedNext(share, threads - i - 1, left);
      var n := share;
      if left > 0 {
        n := n + 1;
        left := left - 1;
      }
      var fdMin, fdMax := FindMinMaxFds(registered, last, n);
      CountSplit(registered, last, fdMin, |registered|);
      CountSplit(registered, fdMin, fdMax + 1, |registered|);
      DividesNext(infos, registered, last, HandlerInfo(n, fdMin, fdMax));
      infos := infos + [HandlerInfo(n, fdMin, fdMax)];
      last := fdMax + 1;
    }
    OwedNext(share, 0, left);
    AllDivided(infos, registered, last);
  }

  lemma NothingDivided(registered: seq<bool>)
    ensures Divides([], registered, 0)
  {
  }

  lemma AllDivided(infos: seq<HandlerInfo>, registered: seq<bool>, last: nat)
    requires Divides(infos, registered, last) && Count(registered, last, |registered|) == 0
    ensures Divides(infos, registered, |registered|)
  {
    forall fd: nat | fd < |registered| && registered[fd]
      ensures fd < last
    {
      if last <= fd {
        NoneLeft(registered, last, |registered|, fd);
      }
    }
  }

  /** So every socket belongs to exactly one thread. */
  lemma ExactlyOne(infos: seq<HandlerInfo>, registered: seq<bool>, fd: nat) returns (i: nat)
    requires Divides(infos, registered, |registered|) && fd < |registered| && registered[fd]
    ensures i < |infos| && Holds(infos[i], fd)
    ensures forall j | 0 <= j < |infos| && Holds(infos[j], fd) :: j == i
  {
    i :| 0 <= i < |infos| && Holds(infos[i], fd);
  }
}
