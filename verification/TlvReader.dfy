/**
 The mutating cursor of builder/src/launcher_config.c over the embedded slot,
 proved against the reference parser of module Tlv.
 */
module TlvReader {
  import opened Common
  import opened Tlv

  const MAX_NESTING_DEPTH: nat := 64

  /** Nesting still allowed below a value read at `depth`. */
  function Budget(depth: nat): nat {
    if depth >= MAX_NESTING_DEPTH then 0 else MAX_NESTING_DEPTH - depth
  }

  function Pow128(k: nat): (r: nat)
    ensures r >= 1
  {
    if k == 0 then 1 else 128 * Pow128(k - 1)
  }

  lemma {:induction false} Pow128Grows(k: nat, n: nat)
    requires k <= n
    ensures Pow128(k) <= Pow128(n)
    decreases n - k
  {
    if k < n { Pow128Grows(k + 1, n); }
  }

  /** No bit is lost in 64 bits, and the next weight still exceeds what was read. */
  lemma Accumulate(value: nat, weight: nat, payload: nat, k: nat)
    requires k <= 9 && weight == Pow128(k) && value < weight && payload < 128
    requires k == 9 ==> payload <= 1
    ensures value + payload * weight < UINT64_LIMIT
    ensures value + payload * weight < weight * 128
  {
    if k < 9 {
      Scaled(payload, 127, weight);
      Pow128Grows(k + 1, 9);
    } else {
      Scaled(payload, 1, weight);
    }
    assert Pow128(9) == 0x8000_0000_0000_0000;
  }

  lemma Scaled(a: nat, b: nat, weight: nat)
    requires a <= b
    ensures a * weight <= b * weight
  {
  }

  /** The reading loop from group k on, in the order the loop works. */
  function ReadGroups(s: seq<byte>, k: nat, value: nat, weight: nat): Parsed<nat> {
    if s == [] || k > 9 then Fail
    else
      var payload := s[0] % 128;
      if (k == 9 && payload > 1) || (k != 0 && payload == 0 && s[0] < 128) then Fail
      else if s[0] < 128 then Done(value + payload * weight, s[1..])
      else ReadGroups(s[1..], k + 1, value + payload * weight, weight * 128)
  }

  lemma {:induction false} ReadGroupsParse(s: seq<byte>, k: nat, value: nat, weight: nat)
    ensures ReadGroups(s, k, value, weight)
         == match ParseGroups(s, k)
            case Fail => Fail
            case Done(v, rest) => Done(value + weight * v, rest)
  {
    if s != [] && k <= 9 && s[0] >= 128 {
      var payload := s[0] % 128;
      ReadGroupsParse(s[1..], k + 1, value + payload * weight, weight * 128);
      if ParseGroups(s[1..], k + 1).Done? {
        Reweigh(value, weight, payload, ParseGroups(s[1..], k + 1).value);
      }
    }
  }

  lemma GroupsStart(s: seq<byte>)
    ensures ReadGroups(s, 0, 0, 1) == ParseVarUint(s)
  {
    hide ParseGroups;
    ReadGroupsParse(s, 0, 0, 1);
  }

  lemma GroupsStep(s: seq<byte>, k: nat, value: nat, weight: nat)
    ensures s == [] || k > 9 ==> ReadGroups(s, k, value, weight).Fail?
    ensures s != [] && k <= 9 ==>
      var payload := s[0] % 128;
      ReadGroups(s, k, value, weight)
      == if (k == 9 && payload > 1) || (k != 0 && payload == 0 && s[0] < 128) then Fail
         else if s[0] < 128 then Done(value + payload * weight, s[1..])
         else ReadGroups(s[1..], k + 1, value + payload * weight, weight * 128)
  {
  }

  lemma NextPower(k: nat)
    ensures Pow128(0) == 1 && Pow128(k + 1) == 128 * Pow128(k)
  {
  }

  lemma Reweigh(value: nat, weight: nat, payload: nat, v: nat)
    ensures value + weight * (payload + 128 * v) == (value + payload * weight) + (weight * 128) * v
  {
    assert weight * (payload + 128 * v) == weight * payload + weight * (128 * v);
  }

  function After<T>(p: Parsed<T>): Option<seq<byte>> {
    match p
    case Fail => None
    case Done(_, rest) => Some(rest)
  }

  class Reader {
    const bytes: seq<byte>
    /** The target's SIZE_MAX. */
    const sizeMax: nat
    var offset: nat

    ghost predicate Valid()
      reads this
    {
      offset <= |bytes| <= sizeMax < UINT64_LIMIT
    }

    /** The bytes the cursor has not passed. */
    ghost function Rest(): seq<byte>
      reads this
      requires Valid()
    {
      bytes[offset..]
    }

    constructor (bytes: seq<byte>, sizeMax: nat)
      requires |bytes| <= sizeMax < UINT64_LIMIT
      ensures Valid() && Rest() == bytes && this.bytes == bytes
    {
      this.bytes := bytes;
      this.sizeMax := sizeMax;
      this.offset := 0;
    }

    method ReadByte() returns (b: byte)
      requires Valid() && offset < |bytes|
      modifies this`offset
      ensures Valid() && offset == old(offset) + 1
      ensures old(Rest()) != [] && b == old(Rest())[0] && Rest() == old(Rest())[1..]
    {
      b := bytes[offset];
      offset := offset + 1;
    }

    method ReadVarUint() returns (ok: bool, value: nat)
      requires Valid()
      modifies this`offset
      ensures Valid() && old(offset) <= offset
      ensures match ParseVarUint(old(Rest()))
              case Fail => !ok
              case Done(v, rest) => ok && value == v && Rest() == rest
    {
      hide ReadGroups, ParseVarUint, Pow128;
      ok, value := false, 0;
      var shift, weight := 0, 1;  // weight is 2^shift
      ghost var k, whole := 0, ParseVarUint(Rest());
      GroupsStart(Rest());
      NextPower(0);
      while offset < |bytes| && shift <= 63
        invariant Valid() && old(offset) <= offset
        invariant shift == 7 * k && k <= 10 && weight == Pow128(k) && value < weight
        invariant ReadGroups(Rest(), k, value, weight) == whole
        decreases |bytes| - offset
      {
        GroupsStep(Rest(), k, value, weight);
        NextPower(k);
        var b := ReadByte();
        var payload := b % 128;
        if (shift == 63 && payload > 1) || (shift != 0 && payload == 0 && b < 128) {
          return false, 0;
        }
        // The payload's bits lie above those already read, so adding is the bitwise or.
        Accumulate(value, weight, payload, k);
        value := value + payload * weight;
        if b < 128 {
          return true, value;
        }
        shift, weight, k := shift + 7, weight * 128, k + 1;
      }
      GroupsStep(Rest(), k, value, weight);
    }

    /** Rejects a count that the remaining bytes cannot hold. */
    method ReadSizedCount(minimum: nat) returns (ok: bool, count: nat)
      requires Valid() && (minimum == 1 || minimum == 2)  // the sizes its callers pass
      modifies this`offset
      ensures Valid() && old(offset) <= offset
      ensures match ParseVarUint(old(Rest()))
              case Fail => !ok
              case Done(v, rest) =>
                if v <= |rest| / minimum then ok && count == v && Rest() == rest else !ok
    {
      ok, count := ReadVarUint();
      if !ok {
        return;
      }
      var remaining := |bytes| - offset;
      if count > sizeMax || count > remaining / minimum {
        return false, 0;
      }
    }

    method ReadCountedBytes() returns (ok: bool, data: seq<byte>)
      requires Valid()
      modifies this`offset
      ensures Valid() && old(offset) <= offset
      ensures match ParseCounted(old(Rest()))
              case Fail => !ok
              case Done(t, rest) => ok && data == t && Rest() == rest
    {
      var length;
      data := [];
      ok, length := ReadVarUint();
      if !ok || length > sizeMax || length > |bytes| - offset {
        return false, [];
      }
      ghost var tail := Rest();
      data := bytes[offset..offset + length];
      offset := offset + length;
      assert data == tail[..length] && Rest() == tail[length..];
    }

    method SkipArray(childDepth: nat) returns (ok: bool)
      requires Valid()
      modifies this`offset
      ensures Valid() && old(offset) <= offset
      ensures match ParseVarUint(old(Rest()))
              case Fail => !ok
              case Done(count, body) =>
                match After(ParseItems(body, count, Budget(childDepth)))
                case None => !ok
                case Some(rest) => ok && Rest() == rest
      decreases |bytes| - offset, 1
    {
      hide ParseValue, ParseMembers, ParseMember, ParseVarUint, ParseCounted;
      var count;
      ok, count := ReadSizedCount(1);
      if !ok {
        return;
      }
      ghost var goal, start := After(ParseItems(Rest(), count, Budget(childDepth))), offset;
      var index := 0;
      while index < count
        invariant Valid() && start <= offset && index <= count
        invariant After(ParseItems(Rest(), count - index, Budget(childDepth))) == goal
      {
        ok := SkipValueWithDepth(childDepth);
        if !ok {
          return;
        }
        index := index + 1;
      }
    }

    method SkipObject(childDepth: nat) returns (ok: bool)
      requires Valid()
      modifies this`offset
      ensures Valid() && old(offset) <= offset
      ensures match ParseVarUint(old(Rest()))
              case Fail => !ok
              case Done(count, body) =>
                match After(ParseMembers(body, count, Budget(childDepth)))
                case None => !ok
                case Some(rest) => ok && Rest() == rest
      decreases |bytes| - offset, 1
    {
      hide ParseValue, ParseItems, ParseVarUint, ParseCounted;
      var count;
      ok, count := ReadSizedCount(2);
      if !ok {
        return;
      }
      ghost var goal, start := After(ParseMembers(Rest(), count, Budget(childDepth))), offset;
      var index := 0;
      while index < count
        invariant Valid() && start <= offset && index <= count
        invariant After(ParseMembers(Rest(), count - index, Budget(childDepth))) == goal
      {
        var ignored;
        ok, ignored := ReadCountedBytes();
        if ok {
          ok := SkipValueWithDepth(childDepth);
        }
        if !ok {
          return;
        }
        index := index + 1;
      }
    }

    method SkipValueWithDepth(depth: nat) returns (ok: bool)
      requires Valid()
      modifies this`offset
      ensures Valid() && old(offset) <= offset
      ensures match After(ParseValue(old(Rest()), Budget(depth)))
              case None => !ok
              case Some(rest) => ok && Rest() == rest
      decreases |bytes| - offset, 0
    {
      hide ParseItems, ParseMembers, ParseVarUint, ParseCounted;
      if offset >= |bytes| {
        return false;
      }
      var tag := ReadByte();
      if tag == 0 || tag == 1 || tag == 2 {
        return true;
      } else if tag == 3 {
        var ignored;
        ok, ignored := ReadVarUint();
      } else if tag == 4 || tag == 5 {
        var ignored;
        ok, ignored := ReadCountedBytes();
      } else if tag == 6 {
        if depth >= MAX_NESTING_DEPTH {
          return false;
        }
        ok := SkipArray(depth + 1);
      } else if tag == 7 {
        if depth >= MAX_NESTING_DEPTH {
          return false;
        }
        ok := SkipObject(depth + 1);
      } else {
        return false;
      }
    }

    /**
     Skipping succeeds exactly when the remaining bytes begin with the encoding of
     some value nested at most 64 deep, and then passes exactly that encoding.
     */
    method SkipValue() returns (ok: bool)
      requires Valid()
      modifies this`offset
      ensures Valid() && old(offset) <= offset
      ensures match After(ParseValue(old(Rest()), MAX_NESTING_DEPTH))
              case None => !ok
              case Some(rest) => ok && Rest() == rest
      ensures ok <==> exists v, rest :: EncodedAt(old(Rest()), v, rest)
      ensures forall v, rest | EncodedAt(old(Rest()), v, rest) :: Rest() == rest
    {
      ok := SkipValueWithDepth(0);
      ghost var s := old(Rest());
      forall v, rest | EncodedAt(s, v, rest)
        ensures ok && Rest() == rest
      {
        ParseExact(s, MAX_NESTING_DEPTH, v, rest);
      }
      if ok {
        ghost var Done(v, rest) := ParseValue(s, MAX_NESTING_DEPTH);
        ParseExact(s, MAX_NESTING_DEPTH, v, rest);
        assert EncodedAt(s, v, rest);
      }
    }
  }

  /** s is the encoding of v, nested at most 64 deep, followed by rest. */
  ghost predicate EncodedAt(s: seq<byte>, v: Value, rest: seq<byte>) {
    Encodable(v) && NestedWithin(v, MAX_NESTING_DEPTH) && s == Encode(v) + rest
  }
}
