/** The streaming context of builder/src/sha1.c and the file hash built on it (builder/src/common.c). */
module Sha1Stream {
  import opened HashStream
  import opened Sha1

  const WORD_LIMIT: nat := 0x1_0000_0000
  const CHUNK_LIMIT: nat := 0x2000_0000
  /** From this length on, the 32-bit index arithmetic of an update wraps around. */
  const INDEX_LIMIT: nat := WORD_LIMIT - 63

  // ------------------------------------------------------------- the digest

  function ByteOfWord(w: word, shift: nat): octet
    requires shift <= 24
  {
    ((w >> shift) & 0xFF) as octet
  }

  /** The five words of the state, most significant byte first. */
  function DigestBytes(s: State): (r: seq<octet>)
    ensures |r| == 20
  {
    WordBytes(s.a) + WordBytes(s.b) + WordBytes(s.c) + WordBytes(s.d) + WordBytes(s.e)
  }

  function WordBytes(w: word): (r: seq<octet>)
    ensures |r| == 4
  {
    [ByteOfWord(w, 24), ByteOfWord(w, 16), ByteOfWord(w, 8), ByteOfWord(w, 0)]
  }

  /** The digest of section 6.1.2 of FIPS 180-4; a length is taken modulo 2^64 bits. */
  function Digest(msg: seq<octet>): (r: seq<octet>)
    ensures |r| == 20
  {
    DigestBytes(Absorb(Compress, INITIAL, msg + Padding(|msg|)))
  }

  // -------------------------------------------------------- the split counter

  /** The two 32-bit halves after `length` more bytes. */
  function CountAfter(count0: nat, count1: nat, length: nat): (nat, nat) {
    var low := (count0 + length * 8 % WORD_LIMIT) % WORD_LIMIT;
    (low, if low < count0 then (count1 + length / CHUNK_LIMIT + 1) % WORD_LIMIT else count1)
  }

  /**
   The split counter follows the bit length exactly when the chunk is below 2^29
   bytes or its low half carries; the carry is the only path that adds the high part.
   */
  lemma CountIsExact(count0: nat, count1: nat, length: nat)
    requires count0 < WORD_LIMIT && count1 < WORD_LIMIT && length < WORD_LIMIT
    ensures CountAfter(count0, count1, length).1 * WORD_LIMIT + CountAfter(count0, count1, length).0
            == (count1 * WORD_LIMIT + count0 + 8 * length) % (WORD_LIMIT * WORD_LIMIT)
        <==> length < CHUNK_LIMIT || count0 + 8 * length % WORD_LIMIT >= WORD_LIMIT
  {
    var over := length / CHUNK_LIMIT;
    assert length * 8 % WORD_LIMIT == 8 * length - over * WORD_LIMIT;
    assert over < 8;
    var total := count1 * WORD_LIMIT + count0 + 8 * length;
    var (low, high) := CountAfter(count0, count1, length);
    var carry := if low < count0 then 1 else 0;
    assert total == (count1 + over + carry) * WORD_LIMIT + low;
    Modulus(count1 + over + carry, low);
  }

  lemma Modulus(high: nat, low: nat)
    requires low < WORD_LIMIT && high < WORD_LIMIT + 16
    ensures (high * WORD_LIMIT + low) % (WORD_LIMIT * WORD_LIMIT) == high % WORD_LIMIT * WORD_LIMIT + low
  {
    if high >= WORD_LIMIT {
      assert high * WORD_LIMIT + low == WORD_LIMIT * WORD_LIMIT + ((high - WORD_LIMIT) * WORD_LIMIT + low);
    }
  }

  /** A chunk of 2^29 bytes on a fresh counter is lost altogether. */
  lemma LargeChunkIsLost()
    ensures CountAfter(0, 0, CHUNK_LIMIT) == (0, 0)
  {}

  /** The counter is the number of bits, modulo 2^64. */
  ghost predicate Counts(count0: nat, count1: nat, length: nat) {
    count0 < WORD_LIMIT && count1 < WORD_LIMIT
    && count1 * WORD_LIMIT + count0 == 8 * length % (WORD_LIMIT * WORD_LIMIT)
  }

  /** The low half of the counter is right whatever the chunks were. */
  ghost predicate CountsLow(count0: nat, count1: nat, length: nat) {
    count0 == 8 * length % WORD_LIMIT && count1 < WORD_LIMIT
  }

  lemma NothingCounted()
    ensures Counts(0, 0, 0) && CountsLow(0, 0, 0) && Tail([]) == []
  {}

  lemma CountStep(count0: nat, count1: nat, length: nat, more: nat)
    requires CountsLow(count0, count1, length) && more < WORD_LIMIT
    ensures var (low, high) := CountAfter(count0, count1, more); CountsLow(low, high, length + more)
  {
    ModuloSums(8 * length, 8 * more, WORD_LIMIT);
  }

  lemma ExactStep(count0: nat, count1: nat, length: nat, more: nat)
    requires Counts(count0, count1, length) && more < WORD_LIMIT
    ensures var (low, high) := CountAfter(count0, count1, more);
      Counts(low, high, length + more) <==> more < CHUNK_LIMIT || count0 + 8 * more % WORD_LIMIT >= WORD_LIMIT
  {
    CountIsExact(count0, count1, more);
    ModuloSum(8 * length, 8 * more, WORD_LIMIT * WORD_LIMIT);
  }

  lemma ModuloSum(a: nat, b: nat, m: nat)
    requires m == WORD_LIMIT * WORD_LIMIT
    ensures (a % m + b) % m == (a + b) % m
  {}

  lemma ModuloSums(a: nat, b: nat, m: nat)
    requires m == WORD_LIMIT
    ensures (a % m + b % m) % m == (a + b) % m
  {}

  lemma PendingBytes(count0: nat, count1: nat, length: nat)
    requires CountsLow(count0, count1, length)
    ensures count0 / 8 % 64 == length % 64
  {
    var whole := 8 * length / WORD_LIMIT;
    assert 8 * length == whole * WORD_LIMIT + count0;
    var x := length - whole * 0x2000_0000;
    QuotientIs(count0, 8, x, 0);
    QuotientIs(length, 64, whole * 0x80_0000 + x / 64, x % 64);
  }

  /** The eight length bytes, taken from the high half and then the low half. */
  function CountBytes(count0: nat, count1: nat): (r: seq<octet>)
    ensures |r| == 8
  {
    [ByteAt(count1, 0x100_0000), ByteAt(count1, 0x1_0000), ByteAt(count1, 0x100), ByteAt(count1, 1),
     ByteAt(count0, 0x100_0000), ByteAt(count0, 0x1_0000), ByteAt(count0, 0x100), ByteAt(count0, 1)]
  }

  lemma CountBytesAre(count0: nat, count1: nat, length: nat)
    requires Counts(count0, count1, length)
    ensures CountBytes(count0, count1) == BigEndian64(8 * length)
  {
    hide ByteAt;
    var whole := 8 * length / (WORD_LIMIT * WORD_LIMIT);
    var n := 8 * length;
    HighByte(n, whole, count0, count1, 0x100_0000, 0x100_0000_0000_0000);
    HighByte(n, whole, count0, count1, 0x1_0000, 0x1_0000_0000_0000);
    HighByte(n, whole, count0, count1, 0x100, 0x100_0000_0000);
    HighByte(n, whole, count0, count1, 1, 0x1_0000_0000);
    LowByte(n, whole, count0, count1, 0x100_0000);
    LowByte(n, whole, count0, count1, 0x1_0000);
    LowByte(n, whole, count0, count1, 0x100);
    LowByte(n, whole, count0, count1, 1);
  }

  /** The filler of section 5.1.1 of FIPS 180-4 before whatever is written as the length. */
  function Filler(length: nat, count: seq<octet>): seq<octet> { [0x80] + Zeros(ZeroCount(length)) + count }

  /** The digest with the length taken from the counter. */
  function CountedDigest(msg: seq<octet>, count0: nat, count1: nat): seq<octet> {
    DigestBytes(Absorb(Compress, INITIAL, msg + Filler(|msg|, CountBytes(count0, count1))))
  }

  predicate ByteWeight(w: nat) {
    w == 1 || w == 0x100 || w == 0x1_0000 || w == 0x100_0000
  }

  /** A byte of n at weight d, when n is x at that weight and the rest of n is whole 256-fold. */
  lemma ByteIs(n: nat, d: nat, whole: nat, x: nat, w: nat, low: nat)
    requires d > 0 && w > 0 && low < d
    requires n == (256 * whole + x / w) * d + low
    ensures ByteAt(n, d) == ByteAt(x, w)
  {
    QuotientIs(n, d, 256 * whole + x / w, low);
    var h := x / w;
    QuotientIs(256 * whole + h, 256, whole + h / 256, h % 256);
  }

  lemma HighByte(n: nat, whole: nat, count0: nat, count1: nat, w: nat, wide: nat)
    requires n == whole * (WORD_LIMIT * WORD_LIMIT) + count1 * WORD_LIMIT + count0
    requires count0 < WORD_LIMIT && count1 < WORD_LIMIT
    requires ByteWeight(w) && wide == w * WORD_LIMIT
    ensures ByteAt(n, wide) == ByteAt(count1, w)
  {
    hide ByteAt;
    var low := count1 % w * WORD_LIMIT + count0;
    if w == 1 {
      ByteIs(n, wide, whole * 0x100_0000, count1, w, low);
    } else if w == 0x100 {
      ByteIs(n, wide, whole * 0x1_0000, count1, w, low);
    } else if w == 0x1_0000 {
      ByteIs(n, wide, whole * 0x100, count1, w, low);
    } else {
      ByteIs(n, wide, whole, count1, w, low);
    }
  }

  lemma LowByte(n: nat, whole: nat, count0: nat, count1: nat, w: nat)
    requires n == whole * (WORD_LIMIT * WORD_LIMIT) + count1 * WORD_LIMIT + count0
    requires ByteWeight(w)
    ensures ByteAt(n, w) == ByteAt(count0, w)
  {
    hide ByteAt;
    var high, low := whole * WORD_LIMIT + count1, count0 % w;
    if w == 1 {
      ByteIs(n, w, high * 0x100_0000, count0, w, low);
    } else if w == 0x100 {
      ByteIs(n, w, high * 0x1_0000, count0, w, low);
    } else if w == 0x1_0000 {
      ByteIs(n, w, high * 0x100, count0, w, low);
    } else {
      ByteIs(n, w, high, count0, w, low);
    }
  }

  /** Byte i of the digest comes from word i / 4, at bit 8 * (3 - i % 4). */
  lemma DigestByteAt(words: seq<word>, i: nat)
    requires |words| == 5 && i < 20
    ensures DigestBytes(StateOf(words))[i] == ByteOfWord(words[i / 4], 8 * (3 - i % 4))
  {
    hide WordBytes;
    var State(a, b, c, d, e) := StateOf(words);
    QuartetAt(WordBytes(a), WordBytes(b), WordBytes(c), WordBytes(d), WordBytes(e), i);
    WordByteAt(words[i / 4], i % 4);
  }

  lemma WordByteAt(w: word, j: nat)
    requires j < 4
    ensures WordBytes(w)[j] == ByteOfWord(w, 8 * (3 - j))
  {
    hide ByteOfWord;
  }

  lemma QuartetAt(a: seq<octet>, b: seq<octet>, c: seq<octet>, d: seq<octet>, e: seq<octet>, i: nat)
    requires |a| == |b| == |c| == |d| == |e| == 4 && i < 20
    ensures (a + b + c + d + e)[i] == [a, b, c, d, e][i / 4][i % 4]
  {
    var q := [a, b, c, d, e][i / 4];
    if i < 4 {} else if i < 8 {} else if i < 12 {} else if i < 16 {} else {}
  }

  // ----------------------------------------------------------- the context

  /** The bits of a counter selected by the mask 504: its byte count within a block, in bits. */
  function Masked504(count: nat): nat { count / 8 % 64 * 8 }

  class Context {
    const state: array<word>
    const buffer: array<octet>
    var count0: nat
    var count1: nat
    /** Everything fed so far. */
    ghost var fed: seq<octet>

    ghost predicate Valid()
      reads this, state, buffer
    {
      && state.Length == 5 && buffer.Length == 64 && (state as object) != buffer
      && StateOf(state[..]) == Absorb(Compress, INITIAL, fed)
      && buffer[..|fed| % 64] == Tail(fed)
      && CountsLow(count0, count1, |fed|)
    }

    /** The counter holds the length of what was fed. */
    ghost predicate Exact()
      reads this
    {
      Counts(count0, count1, |fed|)
    }

    constructor ()
      ensures Valid() && Exact() && fed == [] && fresh(state) && fresh(buffer)
    {
      hide Absorb, Compress, INITIAL, Counts, CountsLow, Tail;
      state := new word[5](_ => 0);
      buffer := new octet[64](_ => 0);
      count0, count1, fed := 0, 0, [];
      new;
      state[0], state[1], state[2], state[3], state[4] := INITIAL.a, INITIAL.b, INITIAL.c, INITIAL.d, INITIAL.e;
      NothingAbsorbed(Compress, INITIAL);
      NothingCounted();
    }

    /** Copies data into the buffer at the given place. */
    method CopyIn(at: nat, data: seq<octet>)
      requires at + |data| <= buffer.Length
      modifies buffer
      ensures buffer[..at + |data|] == old(buffer[..at]) + data
    {
      for k := 0 to |data|
        invariant buffer[..at + k] == old(buffer[..at]) + data[..k]
      {
        buffer[at + k] := data[k];
      }
    }

    /**
     Absorbs a chunk; the counter stays exact just when the chunk is below 2^29 bytes or the
     low half carries.
     */
    method Update(data: seq<octet>)
      requires Valid() && |data| < INDEX_LIMIT
      modifies this, state, buffer
      ensures Valid() && fed == old(fed) + data
      ensures old(Exact()) ==>
        (Exact() <==> |data| < CHUNK_LIMIT || old(count0) + 8 * |data| % WORD_LIMIT >= WORD_LIMIT)
    {
      hide Absorb, Compress, Counts, CountsLow, CountAfter, Tail;
      if Exact() {
        ExactStep(count0, count1, |fed|, |data|);
      }
      var j := count0;
      CountStep(count0, count1, |fed|, |data|);
      PendingBytes(count0, count1, |fed|);
      AdvanceCount(|data|);
      j := j / 8 % 64;
      var i := 0;
      if j + |data| > 63 {
        i := AbsorbBlocks(data, j);
        j := 0;
        LastPart(Compress, INITIAL, fed, data, i);
      } else {
        FeedShort(Compress, INITIAL, fed, data);
      }
      CopyIn(j, data[i..]);
      fed := fed + data;
    }

    /** Completes the pending block and compresses every further whole block of data. */
    method AbsorbBlocks(data: seq<octet>, j: nat) returns (i: nat)
      requires state.Length == 5 && buffer.Length == 64 && (state as object) != buffer
      requires StateOf(state[..]) == Absorb(Compress, INITIAL, fed)
      requires j == |fed| % 64 && buffer[..j] == Tail(fed) && j + |data| > 63
      modifies state, buffer
      ensures i <= |data| < i + 64 && (|fed| + i) % 64 == 0
      ensures StateOf(state[..]) == Absorb(Compress, INITIAL, fed + data[..i])
    {
      hide Absorb, Compress;
      i := 64 - j;
      CopyIn(j, data[..i]);
      FeedToBlock(Compress, INITIAL, fed, data[..i]);
      assert buffer[..] == buffer[..64];
      Transform(state, buffer[..]);
      while i + 63 < |data|
        invariant i <= |data| && (|fed| + i) % 64 == 0
        invariant StateOf(state[..]) == Absorb(Compress, INITIAL, fed + data[..i])
      {
        NextBlock(Compress, INITIAL, fed, data, i);
        Transform(state, data[i..i + 64]);
        i := i + 64;
      }
    }

    /** The halves of the bit counter, with carry. */
    method AdvanceCount(length: nat)
      modifies this`count0, this`count1
      ensures (count0, count1) == CountAfter(old(count0), old(count1), length)
    {
      var j := count0;
      count0 := (count0 + length * 8 % WORD_LIMIT) % WORD_LIMIT;
      if count0 < j {
        count1 := (count1 + length / CHUNK_LIMIT + 1) % WORD_LIMIT;
      }
    }

    /** Pads, absorbs the length and writes out the state. */
    method Final() returns (digest: seq<octet>)
      requires Valid()
      modifies this, state, buffer
      ensures digest == CountedDigest(old(fed), old(count0), old(count1))
      ensures old(Exact()) ==> digest == Digest(old(fed))
    {
      hide Absorb, Compress, Counts, CountsLow, ByteOfWord, DigestBytes, Filler, CountBytes, Digest;
      ExactDigest();
      FillsBlock(|fed|, CountBytes(count0, count1));
      Pad();
      ghost var result := DigestBytes(StateOf(state[..]));
      assert result == CountedDigest(old(fed), old(count0), old(count1));
      digest := [];
      for i := 0 to 20
        invariant digest == result[..i]
        invariant result == DigestBytes(StateOf(state[..]))
      {
        DigestByteAt(state[..], i);
        digest := digest + [ByteOfWord(state[i / 4], 8 * (3 - i % 4))];
      }
      assert result[..20] == result;
    }

    /** The byte 0x80, zero bytes one at a time until eight are left in the block, the length. */
    method Pad()
      requires Valid()
      modifies this, state, buffer
      ensures Valid() && fed == old(fed) + Filler(|old(fed)|, CountBytes(old(count0), old(count1)))
    {
      hide Absorb, Compress, Counts, CountsLow, Valid, Filler, Zeros, ZeroCount, Masked504, CountBytes;
      ghost var msg, k := fed, 0;
      ghost var filler := ZeroCount(|msg|);
      var finalcount := CountBytes(count0, count1);
      Tally();
      Update([0x80]);
      ghost var marked := fed;
      NoZeros(marked);
      AtFiller(|msg|, k);
      while Masked504(count0) != 448
        invariant Valid() && fed == marked + Zeros(k) && k <= filler
        invariant Masked504(count0) == 448 <==> k == filler
        decreases filler - k
      {
        FeedZero(marked, k);
        k := k + 1;
        AtFiller(|msg|, k);
      }
      Update(finalcount);
      FillerParts(msg, k, finalcount);
    }

    method FeedZero(ghost marked: seq<octet>, ghost k: nat)
      requires Valid() && fed == marked + Zeros(k)
      modifies this, state, buffer
      ensures Valid() && fed == marked + Zeros(k + 1)
    {
      hide Absorb, Compress, Counts, CountsLow, Valid, Exact, Zeros;
      Update([0]);
      OneMoreZero(marked, k);
    }

    lemma AtFiller(length: nat, k: nat)
      requires Valid() && |fed| == length + 1 + k && k <= ZeroCount(length)
      ensures Masked504(count0) == 448 <==> k == ZeroCount(length)
    {
      hide Counts, CountsLow, CountBytes, Absorb, Compress, Masked504;
      Tally();
      FillerDone(length, k);
    }

    /** The middle bits of the low half are the bytes pending. */
    lemma Tally()
      requires Valid()
      ensures Masked504(count0) == |fed| % 64 * 8
    {
      hide Counts, CountsLow, Absorb, Compress;
      PendingBytes(count0, count1, |fed|);
    }

    lemma ExactDigest()
      requires Valid()
      ensures Exact() ==> CountedDigest(fed, count0, count1) == Digest(fed)
    {
      hide Counts, CountsLow, CountBytes, BigEndian64, Absorb, Compress;
      if Exact() {
        CountBytesAre(count0, count1, |fed|);
      }
    }
  }

  /** The zero bytes end exactly where eight bytes of the block are left. */
  lemma FillerDone(length: nat, k: nat)
    requires k <= ZeroCount(length)
    ensures (length + 1 + k) % 64 * 8 == 448 <==> k == ZeroCount(length)
  {}

  lemma FillerParts(msg: seq<octet>, k: nat, count: seq<octet>)
    requires k == ZeroCount(|msg|)
    ensures msg + [0x80] + Zeros(k) + count == msg + Filler(|msg|, count)
  {
    hide Zeros;
  }

  lemma FillsBlock(length: nat, count: seq<octet>)
    requires |count| == 8
    ensures (length + |Filler(length, count)|) % 64 == 0
  {
  }

  lemma NoZeros(s: seq<octet>)
    ensures s + Zeros(0) == s
  {}

  lemma OneMoreZero(s: seq<octet>, k: nat)
    ensures s + Zeros(k) + [0] == s + Zeros(k + 1)
  {}

  /** Hashing a message in any chunks, as the file hash does, gives the digest of the whole. */
  method HashChunks(chunks: seq<seq<octet>>) returns (digest: seq<octet>)
    requires forall c | c in chunks :: |c| < CHUNK_LIMIT
    ensures digest == Digest(Flatten(chunks))
  {
    hide Digest;
    var context := new Context();
    for i := 0 to |chunks|
      invariant context.Valid() && fresh(context) && fresh(context.state) && fresh(context.buffer)
      invariant context.Exact() && context.fed == Flatten(chunks[..i])
    {
      context.Update(chunks[i]);
      assert chunks[..i + 1][..i] == chunks[..i];
    }
    assert chunks[..|chunks|] == chunks;
    digest := context.Final();
  }
}
