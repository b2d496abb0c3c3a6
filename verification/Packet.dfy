// The table of send and receive times (src/packet.h, src/packet.cpp): one block per pong request,
// holding its send time and the receive time of each server's reply, all in one flat array.
// A time is an integer; 0 means "not set".
module Packet {

  import opened Arith

  // --- the layout ---

  /** Cell c of block s in the flat array. */
  function Cell(s: nat, c: nat, blockSize: nat): nat {
    s * blockSize + c
  }

  /** Cells of different blocks, or at different places of a block, never share memory. */
  lemma CellsDiffer(s: nat, c: nat, s': nat, c': nat, blockSize: nat)
    requires c < blockSize && c' < blockSize
    ensures Cell(s, c, blockSize) == Cell(s', c', blockSize) <==> s == s' && c == c'
  {
    if s < s' {
      MulMono(s + 1, s', blockSize);
    } else if s' < s {
      MulMono(s' + 1, s, blockSize);
    }
  }

  lemma CellInRange(s: nat, c: nat, slots: nat, blockSize: nat)
    requires s < slots && c < blockSize
    ensures Cell(s, c, blockSize) < slots * blockSize
  {
    MulMono(s + 1, slots, blockSize);
  }

  // --- counting ---

  function NonZero(row: seq<int>): nat {
    if row == [] then 0 else NonZero(row[..|row| - 1]) + if row[|row| - 1] != 0 then 1 else 0
  }

  function NonZeroCells(rows: seq<seq<int>>): nat {
    if rows == [] then 0 else NonZeroCells(rows[..|rows| - 1]) + NonZero(rows[|rows| - 1])
  }

  function Sum(ns: seq<nat>): nat {
    if ns == [] then 0 else Sum(ns[..|ns| - 1]) + ns[|ns| - 1]
  }

  lemma {:induction false} NonZeroUpdate(row: seq<int>, i: nat, x: int)
    requires i < |row|
    ensures NonZero(row[i := x]) == NonZero(row) - (if row[i] != 0 then 1 else 0) + (if x != 0 then 1 else 0)
  {
    var init := row[..|row| - 1];
    if i < |row| - 1 {
      NonZeroUpdate(init, i, x);
      assert row[i := x][..|row| - 1] == init[i := x];
    } else {
      assert row[i := x][..|row| - 1] == init;
    }
  }

  lemma {:induction false} NonZeroCellsUpdate(rows: seq<seq<int>>, i: nat, row: seq<int>)
    requires i < |rows|
    ensures NonZeroCells(rows[i := row]) == NonZeroCells(rows) - NonZero(rows[i]) + NonZero(row)
  {
    var init := rows[..|rows| - 1];
    if i < |rows| - 1 {
      NonZeroCellsUpdate(init, i, row);
      assert rows[i := row][..|rows| - 1] == init[i := row];
    } else {
      assert rows[i := row][..|rows| - 1] == init;
    }
  }

  lemma {:induction false} SumIncrement(ns: seq<nat>, i: nat)
    requires i < |ns|
    ensures Sum(ns[i := ns[i] + 1]) == Sum(ns) + 1
  {
    var init := ns[..|ns| - 1];
    if i < |ns| - 1 {
      SumIncrement(init, i);
      assert ns[i := ns[i] + 1][..|ns| - 1] == init[i := ns[i] + 1];
    } else {
      assert ns[i := ns[i] + 1][..|ns| - 1] == init;
    }
  }

  lemma {:induction false} NoneYet(rows: seq<seq<int>>)
    requires forall s | 0 <= s < |rows| :: forall v | 0 <= v < |rows[s]| :: rows[s][v] == 0
    ensures NonZeroCells(rows) == 0
  {
    if rows != [] {
      NoneYet(rows[..|rows| - 1]);
      ZeroRow(rows[|rows| - 1]);
    }
  }

  lemma {:induction false} ZeroRow(row: seq<int>)
    requires forall v | 0 <= v < |row| :: row[v] == 0
    ensures NonZero(row) == 0
  {
    if row != [] {
      ZeroRow(row[..|row| - 1]);
    }
  }

  lemma {:induction false} ZeroSum(ns: seq<nat>)
    requires forall v | 0 <= v < |ns| :: ns[v] == 0
    ensures Sum(ns) == 0
  {
    if ns != [] {
      ZeroSum(ns[..|ns| - 1]);
    }
  }

  // --- the table ---

  class PacketTimes {
    const maxSequenceNo: nat
    const replyEvery: nat
    const blockSize: nat        // 1 sent + one reply per server
    const times: array<int>
    const duplicates: array<nat>
    var receiveCount: nat       // g_receiveCount

    ghost var tx: seq<int>           // send time by slot
    ghost var rx: seq<seq<int>>      // receive time by slot and server
    ghost var replies: nat           // replies handled, except repetitions after the end of the test

    ghost predicate Shape()
      reads this
    {
      && 0 < replyEvery && 1 < blockSize
      && |tx| == |rx| == maxSequenceNo / replyEvery + 1
      && times.Length == |tx| * blockSize
      && duplicates.Length == blockSize - 1
      && forall s | 0 <= s < |rx| :: |rx[s]| == blockSize - 1
    }

    ghost function Entry(s: nat, c: nat): int
      reads this
      requires Shape() && s < |tx| && c < blockSize
    {
      if c == 0 then tx[s] else rx[s][c - 1]
    }

    /** The flat array holds the two views. */
    ghost predicate Holds()
      reads this, times
      requires Shape()
    {
      forall s: nat, c: nat | s < |tx| && c < blockSize ::
        Cell(s, c, blockSize) < times.Length && times[Cell(s, c, blockSize)] == Entry(s, c)
    }

    /** Moreover the number of replies recorded is the number of cells set, and every reply is
        recorded or counted as a duplicate. */
    ghost predicate Valid()
      reads this, times, duplicates
    {
      && Shape() && Holds()
      && receiveCount == NonZeroCells(rx)
      && replies == receiveCount + Sum(duplicates[..])
    }

    constructor (maxSequenceNo: nat, replyEvery: nat, numServers: nat)
      requires 0 < replyEvery && 0 < numServers
      ensures Valid() && fresh(times) && fresh(duplicates)
      ensures this.maxSequenceNo == maxSequenceNo && this.replyEvery == replyEvery && blockSize == 1 + numServers
      ensures forall s | 0 <= s < |tx| :: tx[s] == 0
      ensures |rx| == |tx|
      ensures forall s | 0 <= s < |rx| :: |rx[s]| == numServers && forall v | 0 <= v < numServers :: rx[s][v] == 0
      ensures replies == 0 && receiveCount == 0
    {
      this.maxSequenceNo, this.replyEvery, this.blockSize := maxSequenceNo, replyEvery, 1 + numServers;
      var slots := maxSequenceNo / replyEvery + 1;
      times := new int[slots * (1 + numServers)](i => 0);
      duplicates := new nat[numServers](i => 0);
      receiveCount, replies := 0, 0;
      tx := seq(slots, i => 0);
      rx := seq(slots, i => seq(numServers, j => 0));
      new;
      hide Cell;
      NoneYet(rx);
      ZeroSum(duplicates[..]);
      forall s: nat, c: nat | s < |tx| && c < blockSize
        ensures Cell(s, c, blockSize) < times.Length && times[Cell(s, c, blockSize)] == Entry(s, c)
      {
        CellInRange(s, c, |tx|, blockSize);
      }
    }

    /** Where a sequence number is recorded.  (One above the maximum ends the program.) */
    function Slot(seqNo: nat): (s: nat)
      reads this
      requires Shape() && seqNo <= maxSequenceNo
      ensures s < |tx|
    {
      FloorMono(seqNo, maxSequenceNo, replyEvery);
      seqNo / replyEvery
    }

    method Write(s: nat, c: nat, x: int)
      requires Shape() && Holds() && s < |tx| && c < blockSize
      modifies times, this`tx, this`rx
      ensures Shape() && Holds()
      ensures tx == if c == 0 then old(tx)[s := x] else old(tx)
      ensures rx == if c == 0 then old(rx) else old(rx)[s := old(rx)[s][c - 1 := x]]
    {
      hide Cell;
      times[Cell(s, c, blockSize)] := x;
      if c == 0 {
        tx := tx[s := x];
      } else {
        rx := rx[s := rx[s][c - 1 := x]];
      }
      forall t: nat, d: nat | t < |tx| && d < blockSize
        ensures Cell(t, d, blockSize) < times.Length && times[Cell(t, d, blockSize)] == Entry(t, d)
      {
        CellsDiffer(s, c, t, d, blockSize);
        assert Cell(t, d, blockSize) < times.Length && old(times[Cell(t, d, blockSize)]) == old(Entry(t, d));
      }
    }

    method SetTxTime(seqNo: nat, now: int)
      requires Valid() && seqNo <= maxSequenceNo
      modifies times, this`tx, this`rx
      ensures Valid() && rx == old(rx) && tx == old(tx)[Slot(seqNo) := now]
    {
      Write(Slot(seqNo), 0, now);
    }

    method ClearTxTime(seqNo: nat)
      requires Valid() && seqNo <= maxSequenceNo
      modifies times, this`tx, this`rx
      ensures Valid() && rx == old(rx) && tx == old(tx)[Slot(seqNo) := 0]
    {
      Write(Slot(seqNo), 0, 0);
    }

    method GetTxTime(seqNo: nat) returns (t: int)
      requires Valid() && seqNo <= maxSequenceNo
      ensures t == tx[Slot(seqNo)]
    {
      t := times[Cell(Slot(seqNo), 0, blockSize)];
    }

    method GetRxTime(seqNo: nat, server: nat) returns (t: int)
      requires Valid() && seqNo <= maxSequenceNo && server < blockSize - 1
      ensures t == rx[Slot(seqNo)][server]
    {
      t := times[Cell(Slot(seqNo), 1 + server, blockSize)];
    }

    /** setRxTime: the first reply of a server to a request is recorded, further ones are counted
        unless the test is over. */
    method SetRxTime(seqNo: nat, time: int, server: nat, exiting: bool)
      requires Valid() && seqNo <= maxSequenceNo && server < blockSize - 1 && time != 0
      modifies times, duplicates, this`tx, this`rx, this`receiveCount, this`replies
      ensures Valid() && tx == old(tx)
      ensures var s := Slot(seqNo);
              if old(rx[s][server]) == 0 then
                && rx == old(rx)[s := old(rx)[s][server := time]]
                && receiveCount == old(receiveCount) + 1 && duplicates[..] == old(duplicates[..])
                && replies == old(replies) + 1
              else
                && rx == old(rx) && receiveCount == old(receiveCount)
                && duplicates[..] == (if exiting then old(duplicates[..])
                                      else old(duplicates[..])[server := old(duplicates[server]) + 1])
                && replies == old(replies) + if exiting then 0 else 1
    {
      hide Cell, NonZero, NonZeroCells, Sum;
      var s := Slot(seqNo);
      if times[Cell(s, 1 + server, blockSize)] == 0 {
        assert Entry(s, 1 + server) == 0;
        NonZeroUpdate(rx[s], server, time);
        NonZeroCellsUpdate(rx, s, rx[s][server := time]);
        Write(s, 1 + server, time);
        receiveCount, replies := receiveCount + 1, replies + 1;
      } else if !exiting {
        assert Entry(s, 1 + server) != 0;
        SumIncrement(duplicates[..], server);
        duplicates[server] := duplicates[server] + 1;
        assert duplicates[..] == old(duplicates[..])[server := old(duplicates[server]) + 1];
        replies := replies + 1;
      } else {
        assert Entry(s, 1 + server) != 0;
      }
    }
  }
}
