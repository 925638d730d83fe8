/**
 SHA-256 of deps/sha2/sha2.c: the compression loop and the streaming context, proved
 against sections 6.2 and 5.1.1 of FIPS 180-4.
 */
module Sha256 {
  import opened Common
  import opened HashStream

  type word = bv32

  datatype State = State(a: word, b: word, c: word, d: word, e: word, f: word, g: word, h: word)

  const INITIAL := State(0x6a09e667, 0xbb67ae85, 0x3c6ef372, 0xa54ff53a, 0x510e527f, 0x9b05688c, 0x1f83d9ab, 0x5be0cd19)

  const ROUND_CONSTANTS: seq<word> := [
    0x428a2f98, 0x71374491, 0xb5c0fbcf, 0xe9b5dba5, 0x3956c25b, 0x59f111f1, 0x923f82a4, 0xab1c5ed5,
    0xd807aa98, 0x12835b01, 0x243185be, 0x550c7dc3, 0x72be5d74, 0x80deb1fe, 0x9bdc06a7, 0xc19bf174,
    0xe49b69c1, 0xefbe4786, 0x0fc19dc6, 0x240ca1cc, 0x2de92c6f, 0x4a7484aa, 0x5cb0a9dc, 0x76f988da,
    0x983e5152, 0xa831c66d, 0xb00327c8, 0xbf597fc7, 0xc6e00bf3, 0xd5a79147, 0x06ca6351, 0x14292967,
    0x27b70a85, 0x2e1b2138, 0x4d2c6dfc, 0x53380d13, 0x650a7354, 0x766a0abb, 0x81c2c92e, 0x92722c85,
    0xa2bfe8a1, 0xa81a664b, 0xc24b8b70, 0xc76c51a3, 0xd192e819, 0xd6990624, 0xf40e3585, 0x106aa070,
    0x19a4c116, 0x1e376c08, 0x2748774c, 0x34b0bcb5, 0x391c0cb3, 0x4ed8aa4a, 0x5b9cca4f, 0x682e6ff3,
    0x748f82ee, 0x78a5636f, 0x84c87814, 0x8cc70208, 0x90befffa, 0xa4506ceb, 0xbef9a3f7, 0xc67178f2]

  function RoundConstant(t: nat): word {
    if t < |ROUND_CONSTANTS| then ROUND_CONSTANTS[t] else 0
  }

  function RotateRight(value: word, bits: nat): word
    requires 0 < bits < 32
  {
    (value >> bits) | (value << (32 - bits))
  }

  function Plus(x: word, y: word): word { x + y }

  function Sum4(x: word, y: word, z: word, w: word): word { x + y + z + w }

  function Choice(x: word, y: word, z: word): word { (x & y) ^ ((!x) & z) }

  function Majority(x: word, y: word, z: word): word { (x & y) ^ (x & z) ^ (y & z) }

  function BigSigma0(x: word): word { RotateRight(x, 2) ^ RotateRight(x, 13) ^ RotateRight(x, 22) }

  function BigSigma1(x: word): word { RotateRight(x, 6) ^ RotateRight(x, 11) ^ RotateRight(x, 25) }

  function SmallSigma0(x: word): word { RotateRight(x, 7) ^ RotateRight(x, 18) ^ (x >> 3) }

  function SmallSigma1(x: word): word { RotateRight(x, 17) ^ RotateRight(x, 19) ^ (x >> 10) }

  // ------------------------------------------------ FIPS 180-4, section 6.2.2

  function LoadBigEndian32(b: seq<octet>): word
    requires |b| == 4
  {
    ((b[0] as word) << 24) | ((b[1] as word) << 16) | ((b[2] as word) << 8) | (b[3] as word)
  }

  function Schedule(b: Block, t: nat): word {
    if t < 16 then LoadBigEndian32(b[4 * t..4 * t + 4])
    else Sum4(SmallSigma1(Schedule(b, t - 2)), Schedule(b, t - 7), SmallSigma0(Schedule(b, t - 15)), Schedule(b, t - 16))
  }

  function Step(s: State, k: word, w: word): State {
    var t1 := Plus(Plus(Plus(Plus(s.h, BigSigma1(s.e)), Choice(s.e, s.f, s.g)), k), w);
    var t2 := Plus(BigSigma0(s.a), Majority(s.a, s.b, s.c));
    State(Plus(t1, t2), s.a, s.b, s.c, Plus(s.d, t1), s.e, s.f, s.g)
  }

  function Rounds(s: State, b: Block, t: nat): State {
    if t == 0 then s else Step(Rounds(s, b, t - 1), RoundConstant(t - 1), Schedule(b, t - 1))
  }

  const ROUNDS: nat := 64

  function Compress(s: State, b: Block): State {
    var r := Rounds(s, b, ROUNDS);
    State(Plus(s.a, r.a), Plus(s.b, r.b), Plus(s.c, r.c), Plus(s.d, r.d),
          Plus(s.e, r.e), Plus(s.f, r.f), Plus(s.g, r.g), Plus(s.h, r.h))
  }

  /** The digest of a message: section 6.2; a length is taken modulo 2^64 bits. */
  function Digest(msg: seq<octet>): (r: seq<octet>)
    ensures |r| == 32
  {
    DigestBytes(Absorb(Compress, INITIAL, msg + Padding(|msg|)))
  }

  function DigestBytes(s: State): (r: seq<octet>)
    ensures |r| == 32
  {
    WordBytes(s.a) + WordBytes(s.b) + WordBytes(s.c) + WordBytes(s.d)
    + WordBytes(s.e) + WordBytes(s.f) + WordBytes(s.g) + WordBytes(s.h)
  }

  function WordBytes(w: word): (r: seq<octet>)
    ensures |r| == 4
  {
    [((w >> 24) & 0xFF) as octet, ((w >> 16) & 0xFF) as octet, ((w >> 8) & 0xFF) as octet, (w & 0xFF) as octet]
  }

  // ---------------------------------------------------------- the compression

  function StateOf(words: seq<word>): State
    requires |words| == 8
  {
    State(words[0], words[1], words[2], words[3], words[4], words[5], words[6], words[7])
  }

  /** The C loop adds the four terms of a schedule word in another order. */
  lemma ScheduleOrder(x16: word, s0: word, x7: word, s1: word)
    ensures Sum4(x16, s0, x7, s1) == Sum4(s1, x7, s0, x16)
  {}

  method ExpandSchedule(data: Block) returns (words: array<word>)
    ensures fresh(words) && words.Length == ROUNDS
    ensures forall t | 0 <= t < ROUNDS :: words[t] == Schedule(data, t)
  {
    hide LoadBigEndian32, SmallSigma0, SmallSigma1, Sum4;
    words := new word[ROUNDS];
    var index := 0;
    while index < 16
      invariant index <= 16
      invariant forall t | 0 <= t < index :: words[t] == Schedule(data, t)
    {
      words[index] := LoadBigEndian32(data[index * 4..index * 4 + 4]);
      index := index + 1;
    }
    while index < ROUNDS
      invariant 16 <= index <= ROUNDS
      invariant forall t | 0 <= t < index :: words[t] == Schedule(data, t)
    {
      var first, second := words[index - 15], words[index - 2];
      ScheduleOrder(words[index - 16], SmallSigma0(first), words[index - 7], SmallSigma1(second));
      words[index] := Sum4(words[index - 16], SmallSigma0(first), words[index - 7], SmallSigma1(second));
      index := index + 1;
    }
  }

  method Transform(state: array<word>, data: Block)
    requires state.Length == 8
    modifies state
    ensures StateOf(state[..]) == Compress(StateOf(old(state[..])), data)
  {
    hide Schedule, BigSigma0, BigSigma1, Choice, Majority, Plus, RoundConstant;
    ghost var s := StateOf(state[..]);
    var words := ExpandSchedule(data);
    var a, b, c, d := state[0], state[1], state[2], state[3];
    var e, f, g, h := state[4], state[5], state[6], state[7];
    for index := 0 to ROUNDS
      invariant State(a, b, c, d, e, f, g, h) == Rounds(s, data, index)
    {
      var first := Plus(Plus(Plus(Plus(h, BigSigma1(e)), Choice(e, f, g)), RoundConstant(index)), words[index]);
      var second := Plus(BigSigma0(a), Majority(a, b, c));
      h, g, f := g, f, e;
      e := Plus(d, first);
      d, c, b := c, b, a;
      a := Plus(first, second);
    }
    state[0], state[1], state[2], state[3] := Plus(state[0], a), Plus(state[1], b), Plus(state[2], c), Plus(state[3], d);
    state[4], state[5], state[6], state[7] := Plus(state[4], e), Plus(state[5], f), Plus(state[6], g), Plus(state[7], h);
  }

  // --------------------------------------------------------------- the context

  lemma BitsPending(bitcount: nat, length: nat)
    requires bitcount == 8 * length % UINT64_LIMIT
    ensures bitcount / 8 % 64 == length % 64
  {
    var whole := 8 * length / UINT64_LIMIT;
    assert 8 * length == whole * UINT64_LIMIT + bitcount;
    var x := length - whole * 0x2000_0000_0000_0000;
    QuotientIs(bitcount, 8, x, 0);
    QuotientIs(length, 64, whole * 0x80_0000_0000_0000 + x / 64, x % 64);
  }

  lemma BitsStep(bitcount: nat, length: nat, more: nat)
    requires bitcount == 8 * length % UINT64_LIMIT
    ensures (bitcount + more * 8 % UINT64_LIMIT) % UINT64_LIMIT == 8 * (length + more) % UINT64_LIMIT
  {
    var q1, q2 := 8 * length / UINT64_LIMIT, more * 8 / UINT64_LIMIT;
    var sum := bitcount + more * 8 % UINT64_LIMIT;
    var q3 := sum / UINT64_LIMIT;
    QuotientIs(8 * (length + more), UINT64_LIMIT, q1 + q2 + q3, sum % UINT64_LIMIT);
  }

  lemma LengthBytesWrap(n: nat)
    ensures BigEndian64(n % UINT64_LIMIT) == BigEndian64(n)
  {
    hide ByteAt;
    var whole := n / UINT64_LIMIT;
    ByteWraps(n, 0x100_0000_0000_0000, 0x100);
    ByteWraps(n, 0x1_0000_0000_0000, 0x1_0000);
    ByteWraps(n, 0x100_0000_0000, 0x100_0000);
    ByteWraps(n, 0x1_0000_0000, 0x1_0000_0000);
    ByteWraps(n, 0x100_0000, 0x100_0000_0000);
    ByteWraps(n, 0x1_0000, 0x1_0000_0000_0000);
    ByteWraps(n, 0x100, 0x100_0000_0000_0000);
    ByteWraps(n, 1, UINT64_LIMIT);
  }

  lemma ByteWraps(n: nat, d: nat, k: nat)
    requires d > 0 && d * k == UINT64_LIMIT && k % 256 == 0
    ensures ByteAt(n % UINT64_LIMIT, d) == ByteAt(n, d)
  {
    var whole, low := n / UINT64_LIMIT, n % UINT64_LIMIT;
    var x, r := low / d, low % d;
    assert low == x * d + r;
    assert n == (whole * k + x) * d + r by {
      assert (whole * k) * d == whole * (d * k);
    }
    QuotientIs(n, d, whole * k + x, r);
    assert whole * k == 256 * (whole * (k / 256));
    QuotientIs(whole * k + x, 256, whole * (k / 256) + x / 256, x % 256);
  }

  class Context {
    const state: array<word>
    const buffer: array<octet>
    var bitcount: nat
    /** Everything fed so far. */
    ghost var fed: seq<octet>

    ghost predicate Valid()
      reads this, state, buffer
    {
      && state.Length == 8 && buffer.Length == 64 && (state as object) != buffer
      && StateOf(state[..]) == Absorb(Compress, INITIAL, fed)
      && buffer[..|fed| % 64] == Tail(fed)
      && bitcount == 8 * |fed| % UINT64_LIMIT
    }

    constructor ()
      ensures Valid() && fed == [] && fresh(state) && fresh(buffer)
    {
      hide Absorb, Compress, INITIAL, Tail;
      state := new word[8](_ => 0);
      buffer := new octet[64](_ => 0);
      bitcount, fed := 0, [];
      new;
      state[0], state[1], state[2], state[3] := INITIAL.a, INITIAL.b, INITIAL.c, INITIAL.d;
      state[4], state[5], state[6], state[7] := INITIAL.e, INITIAL.f, INITIAL.g, INITIAL.h;
      NothingAbsorbed(Compress, INITIAL);
    }

    /** Copies data into the buffer at the given place. */
    method CopyIn(at: nat, data: seq<octet>)
      requires at + |data| <= buffer.Length
      modifies buffer
      ensures buffer[..at + |data|] == old(buffer[..at]) + data
    {
      for k := 0 to |data|
        invariant buffer[..at + k] == old(buffer[..at]) + data[..k]
      {
        buffer[at + k] := data[k];
      }
    }

    method Update(data: seq<octet>)
      requires Valid()
      modifies this, state, buffer
      ensures Valid() && fed == old(fed) + data
    {
      hide Absorb, Compress, Tail;
      if |data| == 0 {
        assert fed + data == fed;
        return;
      }
      var used := bitcount / 8 % 64;
      BitsPending(bitcount, |fed|);
      BitsStep(bitcount, |fed|, |data|);
      bitcount := (bitcount + |data| * 8 % UINT64_LIMIT) % UINT64_LIMIT;
      if used != 0 && |data| < 64 - used {
        FeedShort(Compress, INITIAL, fed, data);
        CopyIn(used, data);
      } else {
        UpdateLong(data, used);
      }
      fed := fed + data;
    }

    /** Data that reaches the end of the pending block. */
    method UpdateLong(data: seq<octet>, used: nat)
      requires state.Length == 8 && buffer.Length == 64 && (state as object) != buffer
      requires StateOf(state[..]) == Absorb(Compress, INITIAL, fed)
      requires used == |fed| % 64 && buffer[..used] == Tail(fed) && (used == 0 || used + |data| >= 64)
      modifies state, buffer
      ensures StateOf(state[..]) == Absorb(Compress, INITIAL, fed + data)
      ensures buffer[..|fed + data| % 64] == Tail(fed + data)
    {
      hide Absorb, Compress, Tail;
      var i := 0;
      if used != 0 {
        i := 64 - used;
        CompleteBlock(used, data[..i]);
      } else {
        assert fed + data[..0] == fed;
      }
      i := AbsorbBlocks(data, i);
      LastPart(Compress, INITIAL, fed, data, i);
      if i < |data| {
        CopyIn(0, data[i..]);
      }
      assert buffer[..0] + data[i..] == data[i..];
    }

    /** Fills the pending block and compresses it. */
    method CompleteBlock(used: nat, data: seq<octet>)
      requires state.Length == 8 && buffer.Length == 64 && (state as object) != buffer
      requires StateOf(state[..]) == Absorb(Compress, INITIAL, fed)
      requires used == |fed| % 64 && buffer[..used] == Tail(fed) && used + |data| == 64
      modifies state, buffer
      ensures StateOf(state[..]) == Absorb(Compress, INITIAL, fed + data)
    {
      hide Absorb, Compress;
      FeedToBlock(Compress, INITIAL, fed, data);
      CopyIn(used, data);
      assert buffer[..] == buffer[..64];
      Transform(state, buffer[..]);
    }

    /** Compresses every whole block of data from start on. */
    method AbsorbBlocks(data: seq<octet>, start: nat) returns (i: nat)
      requires state.Length == 8 && start <= |data| && (|fed| + start) % 64 == 0
      requires StateOf(state[..]) == Absorb(Compress, INITIAL, fed + data[..start])
      modifies state
      ensures i <= |data| < i + 64 && (|fed| + i) % 64 == 0
      ensures StateOf(state[..]) == Absorb(Compress, INITIAL, fed + data[..i])
    {
      hide Absorb, Compress;
      i := start;
      while |data| - i >= 64
        invariant i <= |data| && (|fed| + i) % 64 == 0
        invariant StateOf(state[..]) == Absorb(Compress, INITIAL, fed + data[..i])
      {
        NextBlock(Compress, INITIAL, fed, data, i);
        Transform(state, data[i..i + 64]);
        i := i + 64;
      }
    }

    /** Marks the end, zero-fills to the length field (in a further block if need be) and writes the state. */
    method Final() returns (digest: seq<octet>)
      requires Valid()
      modifies this, state, buffer
      ensures digest == Digest(old(fed))
    {
      hide Absorb, Compress, Padding, WordBytes;
      FinishBlocks();
      digest := [];
      ghost var s := StateOf(state[..]);
      for index := 0 to 8
        invariant StateOf(state[..]) == s
        invariant digest == Joined(state[..index])
      {
        assert state[..index + 1][..index] == state[..index];
        digest := digest + WordBytes(state[index]);
      }
      assert state[..8] == state[..];
      JoinedIsDigest(state[..]);
    }

    method FinishBlocks()
      requires Valid()
      modifies state, buffer
      ensures StateOf(state[..]) == Absorb(Compress, INITIAL, fed + Padding(|fed|))
    {
      hide Absorb, Compress, Padding, Tail;
      var used := bitcount / 8 % 64;
      BitsPending(bitcount, |fed|);
      CopyIn(used, [0x80]);
      used := used + 1;
      if used > 56 {
        FinishInTwo(used);
      } else {
        FinishInOne(used);
      }
    }

    method FinishInOne(used: nat)
      requires state.Length == 8 && buffer.Length == 64 && (state as object) != buffer
      requires StateOf(state[..]) == Absorb(Compress, INITIAL, fed) && bitcount == 8 * |fed| % UINT64_LIMIT
      requires used == |fed| % 64 + 1 <= 56 && buffer[..used] == Tail(fed) + [0x80]
      modifies state, buffer
      ensures StateOf(state[..]) == Absorb(Compress, INITIAL, fed + Padding(|fed|))
    {
      hide Absorb, Compress, Padding, BigEndian64, Tail, Zeros;
      ghost var tail, padding := Tail(fed), Padding(|fed|);
      LengthBytesWrap(8 * |fed|);
      CopyIn(used, Zeros(56 - used));
      CopyIn(56, BigEndian64(bitcount));
      PaddingInOne(fed);
      Assoc(tail, [0x80], Zeros(56 - used));
      Assoc(tail, [0x80] + Zeros(56 - used), BigEndian64(bitcount));
      assert padding[..|padding|] == padding;
      CompressBuffer(fed, padding, tail, padding);
    }

    method FinishInTwo(used: nat)
      requires state.Length == 8 && buffer.Length == 64 && (state as object) != buffer
      requires StateOf(state[..]) == Absorb(Compress, INITIAL, fed) && bitcount == 8 * |fed| % UINT64_LIMIT
      requires used == |fed| % 64 + 1 > 56 && buffer[..used] == Tail(fed) + [0x80]
      modifies state, buffer
      ensures StateOf(state[..]) == Absorb(Compress, INITIAL, fed + Padding(|fed|))
    {
      hide Absorb, Compress, Padding, BigEndian64, Tail, Zeros;
      LengthBytesWrap(8 * |fed|);
      ghost var first := PaddingInTwo(fed);
      CopyIn(used, Zeros(64 - used));
      Assoc(Tail(fed), [0x80], Zeros(64 - used));
      CompressBuffer(fed, Padding(|fed|), Tail(fed), first);
      FinishExtraBlock(Padding(|fed|), |first|);
    }

    /** The second padding block: zeros and the length. */
    method FinishExtraBlock(ghost padding: seq<octet>, ghost i: nat)
      requires state.Length == 8 && buffer.Length == 64 && (state as object) != buffer
      requires |padding| == i + 64 && (|fed| + i) % 64 == 0
      requires padding[i..] == Zeros(56) + BigEndian64(bitcount)
      requires StateOf(state[..]) == Absorb(Compress, INITIAL, fed + padding[..i])
      modifies state, buffer
      ensures StateOf(state[..]) == Absorb(Compress, INITIAL, fed + padding)
    {
      hide Absorb, Compress, Zeros, BigEndian64;
      assert buffer[..0] + Zeros(56) == Zeros(56);
      CopyIn(0, Zeros(56));
      CopyIn(56, BigEndian64(bitcount));
      WholeBuffer();
      NextBlock(Compress, INITIAL, fed, padding, i);
      assert padding[i..i + 64] == padding[i..] && padding[..i + 64] == padding;
      Transform(state, buffer[..]);
    }

    lemma WholeBuffer()
      requires buffer.Length == 64
      ensures buffer[..64] == buffer[..]
    {
      assert buffer[..64] == buffer[..];
    }

    /** Compresses the buffer, which holds the tail completed by the first part of the padding. */
    method CompressBuffer(ghost msg: seq<octet>, ghost padding: seq<octet>, ghost tail: seq<octet>, ghost first: seq<octet>)
      requires state.Length == 8 && buffer.Length == 64 && (state as object) != buffer
      requires StateOf(state[..]) == Absorb(Compress, INITIAL, msg) && tail == Tail(msg)
      requires |tail| + |first| == 64 && first <= padding && buffer[..64] == tail + first
      modifies state
      ensures StateOf(state[..]) == Absorb(Compress, INITIAL, msg + padding[..|first|])
    {
      hide Absorb, Compress, Tail;
      WholeBuffer();
      assert padding[..|first|] == first;
      FeedToBlock(Compress, INITIAL, msg, first);
      Transform(state, buffer[..]);
    }
  }

  /** The padding fits the pending block when at most 55 bytes are pending. */
  lemma PaddingInOne(msg: seq<octet>)
    requires |msg| % 64 <= 55
    ensures Padding(|msg|) == [0x80] + Zeros(55 - |msg| % 64) + BigEndian64(8 * |msg|)
  {
    hide BigEndian64, Zeros;
  }

  /** Otherwise it completes that block and fills one more. */
  lemma PaddingInTwo(msg: seq<octet>) returns (first: seq<octet>)
    requires |msg| % 64 >= 56
    ensures first == [0x80] + Zeros(63 - |msg| % 64)
    ensures var p := Padding(|msg|); first <= p && |p| == |first| + 64 && p[|first|..] == Zeros(56) + BigEndian64(8 * |msg|)
  {
    hide BigEndian64;
    var k := 63 - |msg| % 64;
    first := [0x80] + Zeros(k);
    assert Zeros(k + 56) == Zeros(k) + Zeros(56);
    assert ZeroCount(|msg|) == k + 56;
    hide Zeros;
    Assoc([0x80], Zeros(k), Zeros(56));
    Assoc(first, Zeros(56), BigEndian64(8 * |msg|));
    var rest := Zeros(56) + BigEndian64(8 * |msg|);
    assert (first + rest)[..|first|] == first && (first + rest)[|first|..] == rest;
  }

  function Joined(words: seq<word>): seq<octet> {
    if words == [] then [] else Joined(words[..|words| - 1]) + WordBytes(words[|words| - 1])
  }

  lemma JoinedIsDigest(words: seq<word>)
    requires |words| == 8
    ensures Joined(words) == DigestBytes(StateOf(words))
  {
    hide WordBytes;
    assert words[..7][..6] == words[..6] && words[..6][..5] == words[..5] && words[..5][..4] == words[..4];
    assert words[..4][..3] == words[..3] && words[..3][..2] == words[..2] && words[..2][..1] == words[..1];
    assert words[..1][..0] == [];
    assert Joined(words[..1]) == WordBytes(words[0]);
    assert Joined(words[..2]) == WordBytes(words[0]) + WordBytes(words[1]);
    assert Joined(words[..4]) == Joined(words[..2]) + WordBytes(words[2]) + WordBytes(words[3]);
    assert Joined(words[..6]) == Joined(words[..4]) + WordBytes(words[4]) + WordBytes(words[5]);
  }

  /** Hashing a message in any chunks, as the file hash does, gives the digest of the whole. */
  method HashChunks(chunks: seq<seq<octet>>) returns (digest: seq<octet>)
    ensures digest == Digest(Flatten(chunks))
  {
    hide Digest;
    var context := new Context();
    for i := 0 to |chunks|
      invariant context.Valid() && fresh(context) && fresh(context.state) && fresh(context.buffer)
      invariant context.fed == Flatten(chunks[..i])
    {
      context.Update(chunks[i]);
      assert chunks[..i + 1][..i] == chunks[..i];
    }
    assert chunks[..|chunks|] == chunks;
    digest := context.Final();
  }
}
