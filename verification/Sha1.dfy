/**
 The SHA-1 compression of builder/src/sha1.c, unrolled with rotating registers and a
 16-word circular schedule, proved against section 6.1 of FIPS 180-4.
 */
module Sha1 {
  import opened HashStream

  type word = bv32

  datatype State = State(a: word, b: word, c: word, d: word, e: word)

  const INITIAL := State(0x67452301, 0xEFCDAB89, 0x98BADCFE, 0x10325476, 0xC3D2E1F0)

  function Rol(value: word, bits: nat): word
    requires bits < 32
  {
    (value << bits) | (value >> (32 - bits))
  }

  // ------------------------------------------------ FIPS 180-4, section 6.1.2

  function Ch(x: word, y: word, z: word): word { (x & y) ^ ((!x) & z) }

  function Parity(x: word, y: word, z: word): word { x ^ y ^ z }

  function Maj(x: word, y: word, z: word): word { (x & y) ^ (x & z) ^ (y & z) }

  function Mix(t: nat, x: word, y: word, z: word): word {
    if t < 20 then Ch(x, y, z) else if t < 40 then Parity(x, y, z) else if t < 60 then Maj(x, y, z) else Parity(x, y, z)
  }

  function Constant(t: nat): word {
    if t < 20 then 0x5A827999 else if t < 40 then 0x6ED9EBA1 else if t < 60 then 0x8F1BBCDC else 0xCA62C1D6
  }

  /** A byte at the given bit position of a word. */
  function At(b: octet, position: nat): word
    requires position <= 24
  {
    (b as word) << position
  }

  function Or(x: word, y: word): word { x | y }

  /** Word i of a block, most significant byte first. */
  function BigEndianWord(b: Block, i: nat): word
    requires i < 16
  {
    Or(Or(Or(At(b[4 * i], 24), At(b[4 * i + 1], 16)), At(b[4 * i + 2], 8)), At(b[4 * i + 3], 0))
  }

  function Xor4(x: word, y: word, z: word, w: word): word { x ^ y ^ z ^ w }

  /** The message schedule. */
  function Schedule(b: Block, t: nat): word {
    if t < 16 then BigEndianWord(b, t)
    else Rol(Xor4(Schedule(b, t - 3), Schedule(b, t - 8), Schedule(b, t - 14), Schedule(b, t - 16)), 1)
  }

  function Sum(r: word, f: word, e: word, k: word, w: word): word { r + f + e + k + w }

  /** One step: the registers shift by one place. */
  function Step(s: State, t: nat, w: word): State {
    State(Sum(Rol(s.a, 5), Mix(t, s.b, s.c, s.d), s.e, Constant(t), w), s.a, Rol(s.b, 30), s.c, s.d)
  }

  /** The registers before step t. */
  function Rounds(s: State, b: Block, t: nat): State {
    if t == 0 then s else Step(Rounds(s, b, t - 1), t - 1, Schedule(b, t - 1))
  }

  /** Addition modulo 2^32. */
  function Plus(x: word, y: word): word { x + y }

  function AddStates(s: State, r: State): State {
    State(Plus(s.a, r.a), Plus(s.b, r.b), Plus(s.c, r.c), Plus(s.d, r.d), Plus(s.e, r.e))
  }

  const ROUNDS: nat := 80

  function Compress(s: State, b: Block): State {
    AddStates(s, Rounds(s, b, ROUNDS))
  }

  // ------------------------------------------------------ the macros of sha1.c

  /** A little-endian load of word i, as the union of bytes and words performs it. */
  function LittleEndianWord(b: Block, i: nat): word
    requires i < 16
  {
    Or(Or(Or(At(b[4 * i], 0), At(b[4 * i + 1], 8)), At(b[4 * i + 2], 16)), At(b[4 * i + 3], 24))
  }

  function OddBytes(x: word): word { Rol(x, 24) & 0xFF00FF00 }

  function EvenBytes(x: word): word { Rol(x, 8) & 0x00FF00FF }

  function SwapBytes(x: word): word { Or(OddBytes(x), EvenBytes(x)) }

  lemma RolOfOr(x: word, y: word)
    ensures Rol(x | y, 24) == Rol(x, 24) | Rol(y, 24)
    ensures Rol(x | y, 8) == Rol(x, 8) | Rol(y, 8)
  {
    assert (x | y) << 24 == (x << 24) | (y << 24);
    assert (x | y) >> 24 == (x >> 24) | (y >> 24);
    assert (x | y) << 8 == (x << 8) | (y << 8);
    assert (x | y) >> 8 == (x >> 8) | (y >> 8);
  }

  lemma MaskOfOr(x: word, y: word)
    ensures (x | y) & 0xFF00FF00 == (x & 0xFF00FF00) | (y & 0xFF00FF00)
    ensures (x | y) & 0x00FF00FF == (x & 0x00FF00FF) | (y & 0x00FF00FF)
  {}

  lemma BytesOfOr(x: word, y: word)
    ensures OddBytes(Or(x, y)) == Or(OddBytes(x), OddBytes(y))
    ensures EvenBytes(Or(x, y)) == Or(EvenBytes(x), EvenBytes(y))
  {
    hide Rol;
    RolOfOr(x, y);
    MaskOfOr(Rol(x, 24), Rol(y, 24));
    MaskOfOr(Rol(x, 8), Rol(y, 8));
  }

  lemma OrShuffle(p: word, q: word, r: word, t: word)
    ensures Or(Or(p, q), Or(r, t)) == Or(Or(p, r), Or(q, t))
  {
    assert (p | q) | (r | t) == (p | r) | (q | t);
  }

  lemma SwapOfOr(x: word, y: word)
    ensures SwapBytes(Or(x, y)) == Or(SwapBytes(x), SwapBytes(y))
  {
    hide Or, OddBytes, EvenBytes;
    BytesOfOr(x, y);
    OrShuffle(OddBytes(x), OddBytes(y), EvenBytes(x), EvenBytes(y));
  }

  lemma SwapOfByte(b: octet)
    ensures SwapBytes(At(b, 0)) == At(b, 24)
    ensures SwapBytes(At(b, 8)) == At(b, 16)
  {}

  lemma SwapOfHighByte(b: octet)
    ensures SwapBytes(At(b, 16)) == At(b, 8)
    ensures SwapBytes(At(b, 24)) == At(b, 0)
  {
    var w := b as word;
    var x, y := w << 16, w << 24;
    assert x << 24 == 0 && x >> 8 == w << 8 && x << 8 == w << 24 && x >> 24 == 0;
    assert y << 24 == 0 && y >> 8 == w << 16 && y << 8 == 0 && y >> 24 == w;
  }

  lemma SwapIsBigEndian(b: Block, i: nat)
    requires i < 16
    ensures SwapBytes(LittleEndianWord(b, i)) == BigEndianWord(b, i)
  {
    hide SwapBytes, At, Or;
    var b0, b1, b2, b3 := b[4 * i], b[4 * i + 1], b[4 * i + 2], b[4 * i + 3];
    SwapOfByte(b0);
    SwapOfByte(b1);
    SwapOfHighByte(b2);
    SwapOfHighByte(b3);
    SwapOfOr(Or(Or(At(b0, 0), At(b1, 8)), At(b2, 16)), At(b3, 24));
    SwapOfOr(Or(At(b0, 0), At(b1, 8)), At(b2, 16));
    SwapOfOr(At(b0, 0), At(b1, 8));
  }

  function FastChoice(w: word, x: word, y: word): word { (w & (x ^ y)) ^ y }

  function FastMajority(w: word, x: word, y: word): word { ((w | x) & y) | (w & x) }

  function Accumulate(z: word, f: word, m: word, k: word, r: word): word { z + (f + m + k + r) }

  /** The rewritten choice and majority functions are the standard's, and the order of adding is free. */
  lemma FastChoiceAgrees(w: word, x: word, y: word)
    ensures FastChoice(w, x, y) == Ch(w, x, y)
  {
    assert (w & (x ^ y)) ^ y == (w & x) ^ ((!w) & y);
  }

  lemma FastMajorityAgrees(w: word, x: word, y: word)
    ensures FastMajority(w, x, y) == Maj(w, x, y)
  {
    assert ((w | x) & y) | (w & x) == (w & x) ^ (w & y) ^ (x & y);
  }

  lemma SumReordered(z: word, f: word, m: word, k: word, r: word)
    ensures Accumulate(z, f, m, k, r) == Sum(r, f, z, k, m)
  {}

  /** Before step t <= 16: words below t are in schedule order, the others as loaded. */
  ghost predicate Loading(l: seq<word>, b: Block, t: nat) {
    && |l| == 16 && t <= 16
    && (forall i | 0 <= i < t :: l[i] == Schedule(b, i))
    && (forall i | t <= i < 16 :: l[i] == LittleEndianWord(b, i))
  }

  /** Before step t >= 16: the circular block holds the last sixteen schedule words. */
  ghost predicate Window(l: seq<word>, b: Block, t: nat) {
    && |l| == 16 && t >= 16
    && forall u | t - 16 <= u < t :: l[u % 16] == Schedule(b, u)
  }

  method Blk0(block: array<word>, i: nat, ghost b: Block) returns (w: word)
    requires i < 16 && Loading(block[..], b, i)
    modifies block
    ensures Loading(block[..], b, i + 1) && w == Schedule(b, i)
  {
    hide SwapBytes, BigEndianWord, LittleEndianWord;
    SwapIsBigEndian(b, i);
    assert block[i] == block[..][i];
    w := SwapBytes(block[i]);
    block[i] := w;
  }

  method Blk(block: array<word>, i: nat, ghost b: Block) returns (w: word)
    requires block.Length == 16 && Window(block[..], b, i)
    modifies block
    ensures Window(block[..], b, i + 1) && w == Schedule(b, i)
  {
    hide Schedule, Rol, Xor4, Window;
    ghost var l := block[..];
    NextWord(l, b, i);
    w := Rol(Xor4(block[(i + 13) % 16], block[(i + 8) % 16], block[(i + 2) % 16], block[i % 16]), 1);
    block[i % 16] := w;
    WindowSlides(l, b, i, w);
    assert block[..] == l[i % 16 := w];
  }

  /** The circular indices reach back 3, 8, 14 and 16 places. */
  lemma NextWord(l: seq<word>, b: Block, t: nat)
    requires Window(l, b, t)
    ensures |l| == 16
    ensures Rol(Xor4(l[(t + 13) % 16], l[(t + 8) % 16], l[(t + 2) % 16], l[t % 16]), 1) == Schedule(b, t)
  {
    hide Rol, Xor4, BigEndianWord;
    assert (t + 13) % 16 == (t - 3) % 16 && (t + 8) % 16 == (t - 8) % 16;
    assert (t + 2) % 16 == (t - 14) % 16 && t % 16 == (t - 16) % 16;
  }

  lemma WindowSlides(l: seq<word>, b: Block, t: nat, w: word)
    requires Window(l, b, t) && w == Schedule(b, t)
    ensures Window(l[t % 16 := w], b, t + 1)
  {
    hide Schedule;
    forall u | t - 15 <= u < t + 1
      ensures l[t % 16 := w][u % 16] == Schedule(b, u)
    {
      if u < t { assert u % 16 != t % 16; }
    }
  }

  // Each macro rewrites its second and fifth registers; the caller renames them one place on.

  method R0(block: array<word>, v: word, w: word, x: word, y: word, z: word, i: nat, ghost s: State, ghost b: Block)
    returns (z': word, w': word)
    requires block.Length == 16 && i < 16 && Loading(block[..], b, i) && State(v, w, x, y, z) == Rounds(s, b, i)
    modifies block
    ensures Loading(block[..], b, i + 1) && State(z', v, w', x, y) == Rounds(s, b, i + 1)
  {
    hide Schedule, Ch, Maj, Parity, FastChoice, FastMajority, Sum, Accumulate, Rol, Loading;
    var m := Blk0(block, i, b);
    FastChoiceAgrees(w, x, y);
    SumReordered(z, FastChoice(w, x, y), m, 0x5A827999, Rol(v, 5));
    z' := Accumulate(z, FastChoice(w, x, y), m, 0x5A827999, Rol(v, 5));
    w' := Rol(w, 30);
  }

  method R1(block: array<word>, v: word, w: word, x: word, y: word, z: word, i: nat, ghost s: State, ghost b: Block)
    returns (z': word, w': word)
    requires i < 20 && block.Length == 16 && Window(block[..], b, i) && State(v, w, x, y, z) == Rounds(s, b, i)
    modifies block
    ensures Window(block[..], b, i + 1) && State(z', v, w', x, y) == Rounds(s, b, i + 1)
  {
    hide Schedule, Ch, Maj, Parity, FastChoice, FastMajority, Sum, Accumulate, Rol, Window;
    var m := Blk(block, i, b);
    FastChoiceAgrees(w, x, y);
    SumReordered(z, FastChoice(w, x, y), m, 0x5A827999, Rol(v, 5));
    z' := Accumulate(z, FastChoice(w, x, y), m, 0x5A827999, Rol(v, 5));
    w' := Rol(w, 30);
  }

  method R2(block: array<word>, v: word, w: word, x: word, y: word, z: word, i: nat, ghost s: State, ghost b: Block)
    returns (z': word, w': word)
    requires 20 <= i < 40 && block.Length == 16 && Window(block[..], b, i) && State(v, w, x, y, z) == Rounds(s, b, i)
    modifies block
    ensures Window(block[..], b, i + 1) && State(z', v, w', x, y) == Rounds(s, b, i + 1)
  {
    hide Schedule, Ch, Maj, Parity, FastChoice, FastMajority, Sum, Accumulate, Rol, Window;
    var m := Blk(block, i, b);
    SumReordered(z, Parity(w, x, y), m, 0x6ED9EBA1, Rol(v, 5));
    z' := Accumulate(z, Parity(w, x, y), m, 0x6ED9EBA1, Rol(v, 5));
    w' := Rol(w, 30);
  }

  method R3(block: array<word>, v: word, w: word, x: word, y: word, z: word, i: nat, ghost s: State, ghost b: Block)
    returns (z': word, w': word)
    requires 40 <= i < 60 && block.Length == 16 && Window(block[..], b, i) && State(v, w, x, y, z) == Rounds(s, b, i)
    modifies block
    ensures Window(block[..], b, i + 1) && State(z', v, w', x, y) == Rounds(s, b, i + 1)
  {
    hide Schedule, Ch, Maj, Parity, FastChoice, FastMajority, Sum, Accumulate, Rol, Window;
    var m := Blk(block, i, b);
    FastMajorityAgrees(w, x, y);
    SumReordered(z, FastMajority(w, x, y), m, 0x8F1BBCDC, Rol(v, 5));
    z' := Accumulate(z, FastMajority(w, x, y), m, 0x8F1BBCDC, Rol(v, 5));
    w' := Rol(w, 30);
  }

  method R4(block: array<word>, v: word, w: word, x: word, y: word, z: word, i: nat, ghost s: State, ghost b: Block)
    returns (z': word, w': word)
    requires 60 <= i && block.Length == 16 && Window(block[..], b, i) && State(v, w, x, y, z) == Rounds(s, b, i)
    modifies block
    ensures Window(block[..], b, i + 1) && State(z', v, w', x, y) == Rounds(s, b, i + 1)
  {
    hide Schedule, Ch, Maj, Parity, FastChoice, FastMajority, Sum, Accumulate, Rol, Window;
    var m := Blk(block, i, b);
    SumReordered(z, Parity(w, x, y), m, 0xCA62C1D6, Rol(v, 5));
    z' := Accumulate(z, Parity(w, x, y), m, 0xCA62C1D6, Rol(v, 5));
    w' := Rol(w, 30);
  }

  lemma LoadedIsWindow(l: seq<word>, b: Block)
    requires Loading(l, b, 16)
    ensures Window(l, b, 16)
  {
    hide Schedule;
  }

  // The eighty unrolled rounds, a phase at a time.

  method ChoiceRounds(block: array<word>, ghost s: State, ghost data: Block, before: State) returns (after: State)
    requires block.Length == 16 && Loading(block[..], data, 0) && before == Rounds(s, data, 0)
    modifies block
    ensures Window(block[..], data, 20) && after == Rounds(s, data, 20)
  {
    hide Rounds, Loading, Window;
    var State(a, b, c, d, e) := before;
    e, b := R0(block, a, b, c, d, e, 0, s, data);
    d, a := R0(block, e, a, b, c, d, 1, s, data);
    c, e := R0(block, d, e, a, b, c, 2, s, data);
    b, d := R0(block, c, d, e, a, b, 3, s, data);
    a, c := R0(block, b, c, d, e, a, 4, s, data);
    e, b := R0(block, a, b, c, d, e, 5, s, data);
    d, a := R0(block, e, a, b, c, d, 6, s, data);
    c, e := R0(block, d, e, a, b, c, 7, s, data);
    b, d := R0(block, c, d, e, a, b, 8, s, data);
    a, c := R0(block, b, c, d, e, a, 9, s, data);
    e, b := R0(block, a, b, c, d, e, 10, s, data);
    d, a := R0(block, e, a, b, c, d, 11, s, data);
    c, e := R0(block, d, e, a, b, c, 12, s, data);
    b, d := R0(block, c, d, e, a, b, 13, s, data);
    a, c := R0(block, b, c, d, e, a, 14, s, data);
    e, b := R0(block, a, b, c, d, e, 15, s, data);
    LoadedIsWindow(block[..], data);
    d, a := R1(block, e, a, b, c, d, 16, s, data);
    c, e := R1(block, d, e, a, b, c, 17, s, data);
    b, d := R1(block, c, d, e, a, b, 18, s, data);
    a, c := R1(block, b, c, d, e, a, 19, s, data);
    after := State(a, b, c, d, e);
  }

  method FirstParityRounds(block: array<word>, ghost s: State, ghost data: Block, before: State) returns (after: State)
    requires block.Length == 16 && Window(block[..], data, 20) && before == Rounds(s, data, 20)
    modifies block
    ensures Window(block[..], data, 40) && after == Rounds(s, data, 40)
  {
    hide Rounds, Loading, Window;
    var State(a, b, c, d, e) := before;
    e, b := R2(block, a, b, c, d, e, 20, s, data);
    d, a := R2(block, e, a, b, c, d, 21, s, data);
    c, e := R2(block, d, e, a, b, c, 22, s, data);
    b, d := R2(block, c, d, e, a, b, 23, s, data);
    a, c := R2(block, b, c, d, e, a, 24, s, data);
    e, b := R2(block, a, b, c, d, e, 25, s, data);
    d, a := R2(block, e, a, b, c, d, 26, s, data);
    c, e := R2(block, d, e, a, b, c, 27, s, data);
    b, d := R2(block, c, d, e, a, b, 28, s, data);
    a, c := R2(block, b, c, d, e, a, 29, s, data);
    e, b := R2(block, a, b, c, d, e, 30, s, data);
    d, a := R2(block, e, a, b, c, d, 31, s, data);
    c, e := R2(block, d, e, a, b, c, 32, s, data);
    b, d := R2(block, c, d, e, a, b, 33, s, data);
    a, c := R2(block, b, c, d, e, a, 34, s, data);
    e, b := R2(block, a, b, c, d, e, 35, s, data);
    d, a := R2(block, e, a, b, c, d, 36, s, data);
    c, e := R2(block, d, e, a, b, c, 37, s, data);
    b, d := R2(block, c, d, e, a, b, 38, s, data);
    a, c := R2(block, b, c, d, e, a, 39, s, data);
    after := State(a, b, c, d, e);
  }

  method MajorityRounds(block: array<word>, ghost s: State, ghost data: Block, before: State) returns (after: State)
    requires block.Length == 16 && Window(block[..], data, 40) && before == Rounds(s, data, 40)
    modifies block
    ensures Window(block[..], data, 60) && after == Rounds(s, data, 60)
  {
    hide Rounds, Loading, Window;
    var State(a, b, c, d, e) := before;
    e, b := R3(block, a, b, c, d, e, 40, s, data);
    d, a := R3(block, e, a, b, c, d, 41, s, data);
    c, e := R3(block, d, e, a, b, c, 42, s, data);
    b, d := R3(block, c, d, e, a, b, 43, s, data);
    a, c := R3(block, b, c, d, e, a, 44, s, data);
    e, b := R3(block, a, b, c, d, e, 45, s, data);
    d, a := R3(block, e, a, b, c, d, 46, s, data);
    c, e := R3(block, d, e, a, b, c, 47, s, data);
    b, d := R3(block, c, d, e, a, b, 48, s, data);
    a, c := R3(block, b, c, d, e, a, 49, s, data);
    e, b := R3(block, a, b, c, d, e, 50, s, data);
    d, a := R3(block, e, a, b, c, d, 51, s, data);
    c, e := R3(block, d, e, a, b, c, 52, s, data);
    b, d := R3(block, c, d, e, a, b, 53, s, data);
    a, c := R3(block, b, c, d, e, a, 54, s, data);
    e, b := R3(block, a, b, c, d, e, 55, s, data);
    d, a := R3(block, e, a, b, c, d, 56, s, data);
    c, e := R3(block, d, e, a, b, c, 57, s, data);
    b, d := R3(block, c, d, e, a, b, 58, s, data);
    a, c := R3(block, b, c, d, e, a, 59, s, data);
    after := State(a, b, c, d, e);
  }

  method LastParityRounds(block: array<word>, ghost s: State, ghost data: Block, before: State) returns (after: State)
    requires block.Length == 16 && Window(block[..], data, 60) && before == Rounds(s, data, 60)
    modifies block
    ensures Window(block[..], data, 80) && after == Rounds(s, data, 80)
  {
    hide Rounds, Loading, Window;
    var State(a, b, c, d, e) := before;
    e, b := R4(block, a, b, c, d, e, 60, s, data);
    d, a := R4(block, e, a, b, c, d, 61, s, data);
    c, e := R4(block, d, e, a, b, c, 62, s, data);
    b, d := R4(block, c, d, e, a, b, 63, s, data);
    a, c := R4(block, b, c, d, e, a, 64, s, data);
    e, b := R4(block, a, b, c, d, e, 65, s, data);
    d, a := R4(block, e, a, b, c, d, 66, s, data);
    c, e := R4(block, d, e, a, b, c, 67, s, data);
    b, d := R4(block, c, d, e, a, b, 68, s, data);
    a, c := R4(block, b, c, d, e, a, 69, s, data);
    e, b := R4(block, a, b, c, d, e, 70, s, data);
    d, a := R4(block, e, a, b, c, d, 71, s, data);
    c, e := R4(block, d, e, a, b, c, 72, s, data);
    b, d := R4(block, c, d, e, a, b, 73, s, data);
    a, c := R4(block, b, c, d, e, a, 74, s, data);
    e, b := R4(block, a, b, c, d, e, 75, s, data);
    d, a := R4(block, e, a, b, c, d, 76, s, data);
    c, e := R4(block, d, e, a, b, c, 77, s, data);
    b, d := R4(block, c, d, e, a, b, 78, s, data);
    a, c := R4(block, b, c, d, e, a, 79, s, data);
    after := State(a, b, c, d, e);
  }

  /** Compresses one block into the five state words. */
  method Transform(state: array<word>, data: Block)
    requires state.Length == 5
    modifies state
    ensures StateOf(state[..]) == Compress(StateOf(old(state[..])), data)
  {
    hide Rounds, Loading, Window, LittleEndianWord, Plus;
    ghost var s := StateOf(state[..]);
    var block := new word[16](i requires 0 <= i < 16 => LittleEndianWord(data, i));
    assert Loading(block[..], data, 0) by { NothingLoaded(block[..], data); }
    var r := StateOf(state[..]);
    NoRounds(s, data);
    r := ChoiceRounds(block, s, data, r);
    r := FirstParityRounds(block, s, data, r);
    r := MajorityRounds(block, s, data, r);
    r := LastParityRounds(block, s, data, r);
    state[0] := Plus(state[0], r.a);
    state[1] := Plus(state[1], r.b);
    state[2] := Plus(state[2], r.c);
    state[3] := Plus(state[3], r.d);
    state[4] := Plus(state[4], r.e);
  }

  function StateOf(words: seq<word>): State
    requires |words| == 5
  {
    State(words[0], words[1], words[2], words[3], words[4])
  }

  lemma NothingLoaded(l: seq<word>, b: Block)
    requires |l| == 16 && forall i | 0 <= i < 16 :: l[i] == LittleEndianWord(b, i)
    ensures Loading(l, b, 0)
  {
    hide LittleEndianWord;
  }

  lemma NoRounds(s: State, b: Block)
    ensures Rounds(s, b, 0) == s
  {}
}
