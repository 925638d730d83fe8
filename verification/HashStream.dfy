/**
 What SHA-1 and SHA-256 share in FIPS 180-4: absorbing 64-byte blocks one after the
 other, and the padding of section 5.1.1.  The compression function is a parameter.
 */
module HashStream {
  import opened Common

  type octet = bv8

  type Block = b: seq<octet> | |b| == 64 witness seq(64, _ => 0)

  /** The state after every whole block of the message; a shorter tail is not absorbed. */
  function Absorb<S>(f: (S, Block) -> S, s: S, msg: seq<octet>): S
    decreases |msg|
  {
    if |msg| < 64 then s else Absorb(f, f(s, msg[..64]), msg[64..])
  }

  function Zeros(n: nat): (r: seq<octet>)
    ensures |r| == n
  {
    seq(n, _ => 0)
  }

  /** The low 64 bits of n, most significant byte first. */
  function BigEndian64(n: nat): (r: seq<octet>)
    ensures |r| == 8
  {
    [ByteAt(n, 0x100_0000_0000_0000), ByteAt(n, 0x1_0000_0000_0000),
     ByteAt(n, 0x100_0000_0000), ByteAt(n, 0x1_0000_0000),
     ByteAt(n, 0x100_0000), ByteAt(n, 0x1_0000), ByteAt(n, 0x100), ByteAt(n, 1)]
  }

  function ByteAt(n: nat, weight: nat): octet
    requires weight > 0
  {
    (n / weight % 256) as bv8
  }

  lemma QuotientIs(n: nat, d: nat, q: nat, r: nat)
    requires r < d && n == q * d + r
    ensures n / d == q && n % d == r
  {
    var k := n / d - q;
    assert k * d == r - n % d;
    assert k >= 1 ==> k * d >= d;
    assert k <= -1 ==> k * d + d <= 0;
  }

  /** How many zero bytes separate the bit 1 from the length: the least that completes a block. */
  function ZeroCount(length: nat): (k: nat)
    ensures k < 64 && (length + 1 + k + 8) % 64 == 0
  {
    (119 - length % 64) % 64
  }

  function Padding(length: nat): (r: seq<octet>)
    ensures (length + |r|) % 64 == 0
  {
    [0x80] + Zeros(ZeroCount(length)) + BigEndian64(8 * length)
  }

  /** ZeroCount is the smallest filler with which the padded message is a number of blocks. */
  lemma ZeroCountIsLeast(length: nat, k: nat)
    requires (length + 1 + k + 8) % 64 == 0
    ensures ZeroCount(length) <= k
  {}

  lemma NothingAbsorbed<S>(f: (S, Block) -> S, s: S)
    ensures Absorb(f, s, []) == s
  {}

  lemma {:induction false} AbsorbConcat<S>(f: (S, Block) -> S, s: S, a: seq<octet>, b: seq<octet>)
    requires |a| % 64 == 0
    ensures Absorb(f, s, a + b) == Absorb(f, Absorb(f, s, a), b)
    decreases |a|
  {
    if a == [] {
      assert a + b == b;
    } else {
      assert (a + b)[..64] == a[..64] && (a + b)[64..] == a[64..] + b;
      AbsorbConcat(f, f(s, a[..64]), a[64..], b);
    }
  }

  lemma AbsorbBlock<S>(f: (S, Block) -> S, s: S, a: seq<octet>, b: Block)
    requires |a| % 64 == 0
    ensures Absorb(f, s, a + b) == f(Absorb(f, s, a), b)
  {
    AbsorbConcat(f, s, a, b);
    assert b[..64] == b && b[64..] == [];
  }

  lemma AbsorbTail<S>(f: (S, Block) -> S, s: S, a: seq<octet>, b: seq<octet>)
    requires |a| % 64 == 0 && |b| < 64
    ensures Absorb(f, s, a + b) == Absorb(f, s, a)
  {
    AbsorbConcat(f, s, a, b);
  }

  /** The message splits into whole blocks and the tail still to be absorbed. */
  function Whole(msg: seq<octet>): (r: seq<octet>)
    ensures |r| % 64 == 0 && |r| == |msg| - |msg| % 64
  {
    msg[..|msg| - |msg| % 64]
  }

  function Tail(msg: seq<octet>): (r: seq<octet>)
    ensures |r| == |msg| % 64
  {
    msg[|msg| - |msg| % 64..]
  }

  lemma SplitIs(msg: seq<octet>, whole: seq<octet>, tail: seq<octet>)
    requires msg == whole + tail && |whole| % 64 == 0 && |tail| < 64
    ensures Whole(msg) == whole && Tail(msg) == tail
  {}

  lemma Split(msg: seq<octet>)
    ensures msg == Whole(msg) + Tail(msg)
  {}

  /** Data that does not complete a block only joins the tail. */
  lemma FeedShort<S>(f: (S, Block) -> S, s: S, msg: seq<octet>, data: seq<octet>)
    requires |Tail(msg)| + |data| < 64
    ensures Absorb(f, s, msg + data) == Absorb(f, s, msg)
    ensures Tail(msg + data) == Tail(msg) + data
  {
    hide Absorb, Whole, Tail;
    var (whole, tail) := (Whole(msg), Tail(msg));
    Split(msg);
    Assoc(whole, tail, data);
    AbsorbTail(f, s, whole, tail);
    AbsorbTail(f, s, whole, tail + data);
    SplitIs(msg + data, whole, tail + data);
  }

  /** Data that completes the pending block exactly: one more compression. */
  lemma FeedToBlock<S>(f: (S, Block) -> S, s: S, msg: seq<octet>, data: seq<octet>)
    requires |Tail(msg)| + |data| == 64
    ensures Absorb(f, s, msg + data) == f(Absorb(f, s, msg), Tail(msg) + data)
    ensures Tail(msg + data) == []
  {
    hide Absorb, Whole, Tail;
    var (whole, tail) := (Whole(msg), Tail(msg));
    Split(msg);
    Assoc(whole, tail, data);
    AbsorbTail(f, s, whole, tail);
    AbsorbBlock(f, s, whole, tail + data);
    assert msg + data + [] == msg + data;
    SplitIs(msg + data, msg + data, []);
  }

  /** Once the pending block is complete, data is absorbed a block at a time. */
  lemma NextBlock<S>(f: (S, Block) -> S, s: S, msg: seq<octet>, data: seq<octet>, i: nat)
    requires (|msg| + i) % 64 == 0 && i + 64 <= |data|
    ensures Absorb(f, s, msg + data[..i + 64]) == f(Absorb(f, s, msg + data[..i]), data[i..i + 64])
  {
    hide Absorb;
    assert data[..i + 64] == data[..i] + data[i..i + 64];
    Assoc(msg, data[..i], data[i..i + 64]);
    AbsorbBlock(f, s, msg + data[..i], data[i..i + 64]);
  }

  /** What is left after the last whole block becomes the new tail. */
  lemma LastPart<S>(f: (S, Block) -> S, s: S, msg: seq<octet>, data: seq<octet>, i: nat)
    requires (|msg| + i) % 64 == 0 && i <= |data| < i + 64
    ensures Absorb(f, s, msg + data) == Absorb(f, s, msg + data[..i])
    ensures Tail(msg + data) == data[i..]
  {
    hide Absorb, Whole, Tail;
    SplitAt(msg, data, i);
    LastPiece(f, s, msg, data[..i], data[i..]);
  }

  lemma SplitAt(msg: seq<octet>, data: seq<octet>, i: nat)
    requires (|msg| + i) % 64 == 0 && i <= |data|
    ensures data[..i] + data[i..] == data && |msg + data[..i]| % 64 == 0
  {
    assert |msg + data[..i]| == |msg| + i;
  }

  lemma LastPiece<S>(f: (S, Block) -> S, s: S, msg: seq<octet>, front: seq<octet>, rest: seq<octet>)
    requires |msg + front| % 64 == 0 && |rest| < 64
    ensures Absorb(f, s, msg + (front + rest)) == Absorb(f, s, msg + front) && Tail(msg + (front + rest)) == rest
  {
    hide Absorb, Whole, Tail;
    var fed := msg + front;
    Assoc(msg, front, rest);
    AbsorbTail(f, s, fed, rest);
    SplitIs(fed + rest, fed, rest);
  }

  function Flatten(chunks: seq<seq<octet>>): seq<octet> {
    if chunks == [] then [] else Flatten(chunks[..|chunks| - 1]) + chunks[|chunks| - 1]
  }
}
