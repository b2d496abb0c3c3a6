// The wire format of a message (src/message.h): a packed 14-byte header, then payload.
//
//   bytes 0..8    sequence number      uint64
//   bytes 8..10   flags                uint16   (client, pong request, warmup)
//   bytes 10..14  length of the whole message, header included   uint32
//
// Headers travel in network (big-endian) order and are worked on in host order.  The host is
// little-endian, so both conversions reverse the bytes of each of the three fields.
module Messages {

  type byte = b: int | 0 <= b < 256

  const EFFECTIVE_SIZE: nat := 14
  const TWO_64: nat := 0x1_0000_0000_0000_0000
  const TWO_32: nat := 0x1_0000_0000

  // --- integers as little-endian bytes ---

  function FromLE(s: seq<byte>): nat {
    if s == [] then 0 else s[0] + 256 * FromLE(s[1..])
  }

  function ToLE(n: nat, k: nat): (s: seq<byte>)
    ensures |s| == k
  {
    if k == 0 then [] else [n % 256] + ToLE(n / 256, k - 1)
  }

  function Pow256(k: nat): nat {
    if k == 0 then 1 else 256 * Pow256(k - 1)
  }

  /** Storing a number that fits k bytes and reading it back gives the number. */
  lemma {:induction false} StoreLoad(n: nat, k: nat)
    requires n < Pow256(k)
    ensures FromLE(ToLE(n, k)) == n
  {
    if k > 0 {
      assert n / 256 < Pow256(k - 1);
      StoreLoad(n / 256, k - 1);
      assert ToLE(n, k)[1..] == ToLE(n / 256, k - 1);
    }
  }

  /** What is read from k bytes fits k bytes, and storing it again gives the same bytes. */
  lemma {:induction false} LoadStore(s: seq<byte>)
    ensures FromLE(s) < Pow256(|s|)
    ensures ToLE(FromLE(s), |s|) == s
  {
    if s != [] {
      LoadStore(s[1..]);
      SplitByte(s[0], FromLE(s[1..]));
    }
  }

  lemma SplitByte(low: byte, high: nat)
    ensures (low + 256 * high) % 256 == low && (low + 256 * high) / 256 == high
  {
  }

  lemma Pow256Values()
    ensures Pow256(8) == TWO_64 && Pow256(4) == TWO_32
  {
    assert Pow256(1) == 256;
    assert Pow256(2) == 65536;
    assert Pow256(3) == 16777216;
    assert Pow256(4) == TWO_32;
    assert Pow256(5) == 256 * TWO_32;
    assert Pow256(6) == 65536 * TWO_32;
    assert Pow256(7) == 16777216 * TWO_32;
  }

  // --- header fields of a message in host order ---

  function SeqNo(h: seq<byte>): nat
    requires |h| >= EFFECTIVE_SIZE
  {
    FromLE(h[0..8])
  }

  function Length(h: seq<byte>): nat
    requires |h| >= EFFECTIVE_SIZE
  {
    FromLE(h[10..14])
  }

  /** The flag masks 1, 2 and 4.  All lie in the low byte of the flags, which host order keeps at
      byte 8. */
  datatype Flag = Client | Pong | Warmup

  predicate HasBit(b: byte, f: Flag) {
    var low := b % 8;
    match f
    case Client => low == 1 || low == 3 || low == 5 || low == 7
    case Pong => low == 2 || low == 3 || low == 6 || low == 7
    case Warmup => low >= 4
  }

  /** The flags are the bits with the values 1, 2 and 4. */
  lemma FlagMasks(b: byte)
    ensures HasBit(b, Client) <==> b % 2 == 1
    ensures HasBit(b, Pong) <==> b / 2 % 2 == 1
    ensures HasBit(b, Warmup) <==> b / 4 % 2 == 1
  {
  }

  function SetBit(b: byte, f: Flag): (r: byte)
    ensures HasBit(r, f)
    ensures forall g | g != f :: HasBit(r, g) == HasBit(b, g)
    ensures b - b % 8 == r - r % 8
  {
    if HasBit(b, f) then b else
    match f
    case Client => b + 1
    case Pong => b + 2
    case Warmup => b + 4
  }

  function ClearBit(b: byte, f: Flag): (r: byte)
    ensures !HasBit(r, f)
    ensures forall g | g != f :: HasBit(r, g) == HasBit(b, g)
    ensures b - b % 8 == r - r % 8
  {
    if !HasBit(b, f) then b else
    match f
    case Client => b - 1
    case Pong => b - 2
    case Warmup => b - 4
  }

  predicate HasFlag(h: seq<byte>, f: Flag)
    requires |h| >= EFFECTIVE_SIZE
  {
    HasBit(h[8], f)
  }

  function SetFlag(h: seq<byte>, f: Flag): (r: seq<byte>)
    requires |h| >= EFFECTIVE_SIZE
    ensures |r| == |h| && r == h[8 := r[8]] && HasFlag(r, f)
  {
    h[8 := SetBit(h[8], f)]
  }

  function ClearFlag(h: seq<byte>, f: Flag): (r: seq<byte>)
    requires |h| >= EFFECTIVE_SIZE
    ensures |r| == |h| && r == h[8 := r[8]] && !HasFlag(r, f)
  {
    h[8 := ClearBit(h[8], f)]
  }

  /** Setting a flag undoes clearing it exactly on the messages that had it, and the other way
      around. */
  lemma ClearThenSet(h: seq<byte>, f: Flag)
    requires |h| >= EFFECTIVE_SIZE
    ensures SetFlag(ClearFlag(h, f), f) == h <==> HasFlag(h, f)
    ensures ClearFlag(SetFlag(h, f), f) == h <==> !HasFlag(h, f)
  {
    assert h[8 := h[8]] == h;
    assert SetFlag(ClearFlag(h, f), f)[8] == SetBit(ClearBit(h[8], f), f);
    assert ClearFlag(SetFlag(h, f), f)[8] == ClearBit(SetBit(h[8], f), f);
  }

  function WithSeqNo(h: seq<byte>, n: nat): (r: seq<byte>)
    requires |h| >= EFFECTIVE_SIZE && n < TWO_64
    ensures |r| == |h| && SeqNo(r) == n
    ensures r[8..] == h[8..]
  {
    Pow256Values();
    StoreLoad(n, 8);
    var r := ToLE(n, 8) + h[8..];
    assert r[0..8] == ToLE(n, 8);
    r
  }

  function WithLength(h: seq<byte>, n: nat): (r: seq<byte>)
    requires |h| >= EFFECTIVE_SIZE && n < TWO_32
    ensures |r| == |h| && Length(r) == n
    ensures r[..10] == h[..10] && r[14..] == h[14..]
  {
    Pow256Values();
    StoreLoad(n, 4);
    var r := h[..10] + ToLE(n, 4) + h[14..];
    assert r[10..14] == ToLE(n, 4);
    r
  }

  /** Writing back the sequence number a header already has changes no byte of it. */
  lemma RewriteSeqNo(h: seq<byte>)
    requires |h| >= EFFECTIVE_SIZE
    ensures SeqNo(h) < TWO_64
    ensures WithSeqNo(h, SeqNo(h)) == h
  {
    Pow256Values();
    LoadStore(h[0..8]);
    assert h == h[0..8] + h[8..];
  }

  lemma SeqNoBound(h: seq<byte>)
    requires |h| >= EFFECTIVE_SIZE
    ensures SeqNo(h) < TWO_64 && Length(h) < TWO_32
  {
    Pow256Values();
    LoadStore(h[0..8]);
    LoadStore(h[10..14]);
  }

  lemma {:induction false} WithSeqNoTwice(h: seq<byte>, n: nat, m: nat)
    requires |h| >= EFFECTIVE_SIZE && n < TWO_64 && m < TWO_64
    ensures WithSeqNo(WithSeqNo(h, n), m) == WithSeqNo(h, m)
  {
    assert WithSeqNo(h, n)[8..] == h[8..];
  }

  // --- byte order ---

  /** Where the byte at position i of a message comes from. */
  function Swapped(i: nat): nat {
    if i < 8 then 7 - i else if i < 10 then 17 - i else if i < 14 then 23 - i else i
  }

  /** hton() and ntoh(): reverse the bytes of the three header fields, keep the payload. */
  function SwapHeader(s: seq<byte>): (r: seq<byte>)
    requires |s| >= EFFECTIVE_SIZE
    ensures |r| == |s|
  {
    seq(|s|, i requires 0 <= i < |s| => s[Swapped(i)])
  }

  /** The number that bytes stand for in network order: the most significant byte comes first. */
  function FromBE(s: seq<byte>): nat {
    if s == [] then 0 else FromBE(s[..|s| - 1]) * 256 + s[|s| - 1]
  }

  /** Bytes in reverse, read the other way, stand for the same number. */
  lemma {:induction false} Reversed(s: seq<byte>, t: seq<byte>)
    requires |s| == |t| && forall i | 0 <= i < |s| :: t[i] == s[|s| - 1 - i]
    ensures FromBE(t) == FromLE(s)
  {
    if s != [] {
      var s', t' := s[1..], t[..|t| - 1];
      forall i | 0 <= i < |s'|
        ensures t'[i] == s'[|s'| - 1 - i]
      {
        assert t[i] == s[|s| - 1 - i];
      }
      Reversed(s', t');
      assert t[|t| - 1] == s[0];
    }
  }

  /** What goes out: sequence number, flags and length in network order, and the payload as it is. */
  lemma NetworkOrder(h: seq<byte>)
    requires |h| >= EFFECTIVE_SIZE
    ensures FromBE(SwapHeader(h)[0..8]) == SeqNo(h)
    ensures SwapHeader(h)[8..10] == [h[9], h[8]] && FromBE(SwapHeader(h)[8..10]) == FromLE(h[8..10])
    ensures FromBE(SwapHeader(h)[10..14]) == Length(h)
    ensures SwapHeader(h)[14..] == h[14..]
  {
    Reversed(h[0..8], SwapHeader(h)[0..8]);
    Reversed(h[8..10], SwapHeader(h)[8..10]);
    Reversed(h[10..14], SwapHeader(h)[10..14]);
  }

  /** The bytes of an arriving message as the parser keeps them: the header is converted as soon
      as it is complete, and only then. */
  function Converted(s: seq<byte>): (r: seq<byte>)
    ensures |r| == |s|
  {
    if |s| >= EFFECTIVE_SIZE then SwapHeader(s) else s
  }

  lemma SwapTwice(s: seq<byte>)
    requires |s| >= EFFECTIVE_SIZE
    ensures SwapHeader(SwapHeader(s)) == s
  {
  }

  lemma SwapAppend(s: seq<byte>, t: seq<byte>)
    requires |s| >= EFFECTIVE_SIZE
    ensures SwapHeader(s + t) == SwapHeader(s) + t
  {
  }

  /** The declared length of a message whose header is still in network order. */
  function NetLength(s: seq<byte>): nat
    requires |s| >= EFFECTIVE_SIZE
  {
    Length(SwapHeader(s))
  }

  lemma NetLengthPrefix(s: seq<byte>, t: seq<byte>)
    requires EFFECTIVE_SIZE <= |s| && EFFECTIVE_SIZE <= |t| && s[..14] == t[..14]
    ensures NetLength(s) == NetLength(t)
  {
    assert forall i | 0 <= i < 14 :: s[i] == s[..14][i] && t[i] == t[..14][i];
    assert SwapHeader(s)[10..14] == SwapHeader(t)[10..14];
  }

  lemma {:induction false} LoadZero(s: seq<byte>)
    requires forall i | 0 <= i < |s| :: s[i] == 0
    ensures FromLE(s) == 0
  {
    if s != [] {
      LoadZero(s[1..]);
    }
  }

  /** The header declares length 0, which reads the same in either byte order. */
  ghost predicate DeclaresNothing(s: seq<byte>) {
    |s| >= EFFECTIVE_SIZE && s[10] == 0 && s[11] == 0 && s[12] == 0 && s[13] == 0
  }

  lemma NothingDeclared(s: seq<byte>)
    requires DeclaresNothing(s)
    ensures DeclaresNothing(SwapHeader(s)) && NetLength(s) == 0
  {
    var t := SwapHeader(s);
    assert t[10] == s[Swapped(10)] && t[11] == s[Swapped(11)] && t[12] == s[Swapped(12)] && t[13] == s[Swapped(13)];
    LoadZero(t[10..14]);
  }

  lemma LengthPrefix(h: seq<byte>)
    requires |h| >= EFFECTIVE_SIZE
    ensures Length(h[..EFFECTIVE_SIZE]) == Length(h)
  {
    assert h[..EFFECTIVE_SIZE][10..14] == h[10..14];
  }

  lemma SwapPrefix(s: seq<byte>, n: nat)
    requires EFFECTIVE_SIZE <= n <= |s|
    ensures SwapHeader(s[..n]) == SwapHeader(s)[..n]
  {
  }

  // --- in place ---

  method ReverseRange(a: array<byte>, lo: nat, hi: nat)
    requires lo <= hi <= a.Length
    modifies a
    ensures forall i | lo <= i < hi :: a[i] == old(a[lo + hi - 1 - i])
    ensures forall i | 0 <= i < lo || hi <= i < a.Length :: a[i] == old(a[i])
  {
    var i, j := lo, hi;
    while i < j
      invariant lo <= i && j <= hi && i + j == lo + hi && i <= j + 1
      invariant forall k | lo <= k < i || j <= k < hi :: a[k] == old(a[lo + hi - 1 - k])
      invariant forall k | i <= k < j || 0 <= k < lo || hi <= k < a.Length :: a[k] == old(a[k])
    {
      j := j - 1;
      a[i], a[j] := a[j], a[i];
      i := i + 1;
    }
  }

  /** The bytes s lie in memory at a[p..]. */
  ghost predicate At(a: array<byte>, p: nat, s: seq<byte>)
    reads a
  {
    p + |s| <= a.Length && a[p..p + |s|] == s
  }

  method SwapHeaderIn(a: array<byte>, p: nat, ghost end: nat)
    requires p + EFFECTIVE_SIZE <= end <= a.Length
    modifies a
    ensures a[p..end] == SwapHeader(old(a[p..end]))
    ensures forall i | 0 <= i < p || p + EFFECTIVE_SIZE <= i < a.Length :: a[i] == old(a[i])
  {
    ReverseRange(a, p, p + 8);
    ReverseRange(a, p + 8, p + 10);
    ReverseRange(a, p + 10, p + 14);
  }

  /** Converts the header of the message s at a[p..], in place. */
  method SwapHeaderAt(a: array<byte>, p: nat, ghost s: seq<byte>)
    requires |s| >= EFFECTIVE_SIZE && At(a, p, s)
    modifies a
    ensures At(a, p, SwapHeader(s))
    ensures forall i | 0 <= i < p || p + EFFECTIVE_SIZE <= i < a.Length :: a[i] == old(a[i])
  {
    hide SwapHeader;
    SwapHeaderIn(a, p, p + |s|);
  }
}
