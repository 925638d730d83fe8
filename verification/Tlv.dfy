/**
 The embedded configuration format: values, their canonical byte encoding
 (ui/cef/embed-config.ts) and a reference parser.  The cursor of
 builder/src/launcher_config.c is proved against the parser, and the parser
 against the encoding.
 */
module Tlv {
  import opened Common

  datatype Value =
    | Null
    | Bool(b: bool)
    | UInt(n: nat)
    | Text(text: seq<byte>)
    | Binary(data: seq<byte>)
    | Array(items: seq<Value>)
    | Object(members: seq<Member>)

  datatype Member = Member(key: seq<byte>, value: Value)

  // ---------------------------------------------------------------- encoding

  function EncodeVarUint(n: nat): (r: seq<byte>)
    ensures |r| >= 1
  {
    if n < 128 then [n] else [n % 128 + 128] + EncodeVarUint(n / 128)
  }

  function EncodeCounted(s: seq<byte>): (r: seq<byte>)
    ensures |r| >= 1
  {
    EncodeVarUint(|s|) + s
  }

  function Encode(v: Value): (r: seq<byte>)
    ensures |r| >= 1
    decreases v
  {
    match v
    case Null => [0]
    case Bool(b) => if b then [2] else [1]
    case UInt(n) => [3] + EncodeVarUint(n)
    case Text(s) => [4] + EncodeCounted(s)
    case Binary(s) => [5] + EncodeCounted(s)
    case Array(items) => [6] + EncodeVarUint(|items|) + EncodeItems(items)
    case Object(members) => [7] + EncodeVarUint(|members|) + EncodeMembers(members)
  }

  function EncodeItems(items: seq<Value>): (r: seq<byte>)
    ensures |r| >= |items|
    decreases items
  {
    if items == [] then [] else Encode(items[0]) + EncodeItems(items[1..])
  }

  function EncodeMember(m: Member): (r: seq<byte>)
    ensures |r| >= 2
    decreases m
  {
    EncodeCounted(m.key) + Encode(m.value)
  }

  function EncodeMembers(members: seq<Member>): (r: seq<byte>)
    ensures |r| >= 2 * |members|
    decreases members
  {
    if members == [] then [] else EncodeMember(members[0]) + EncodeMembers(members[1..])
  }

  /** Every integer and every length fits the 64-bit variable-length integer. */
  predicate Encodable(v: Value)
    decreases v
  {
    match v
    case Null => true
    case Bool(_) => true
    case UInt(n) => n < UINT64_LIMIT
    case Text(s) => |s| < UINT64_LIMIT
    case Binary(s) => |s| < UINT64_LIMIT
    case Array(items) => |items| < UINT64_LIMIT && EncodableItems(items)
    case Object(members) => |members| < UINT64_LIMIT && EncodableMembers(members)
  }

  predicate EncodableItems(items: seq<Value>)
    decreases items
  {
    items == [] || (Encodable(items[0]) && EncodableItems(items[1..]))
  }

  predicate EncodableMember(m: Member)
    decreases m
  {
    |m.key| < UINT64_LIMIT && Encodable(m.value)
  }

  predicate EncodableMembers(members: seq<Member>)
    decreases members
  {
    members == [] || (EncodableMember(members[0]) && EncodableMembers(members[1..]))
  }

  /** At most `budget` arrays and objects lie on any path into v. */
  predicate NestedWithin(v: Value, budget: nat)
    decreases v
  {
    match v
    case Array(items) => budget > 0 && ItemsNestedWithin(items, budget - 1)
    case Object(members) => budget > 0 && MembersNestedWithin(members, budget - 1)
    case _ => true
  }

  predicate ItemsNestedWithin(items: seq<Value>, budget: nat)
    decreases items
  {
    items == [] || (NestedWithin(items[0], budget) && ItemsNestedWithin(items[1..], budget))
  }

  predicate MembersNestedWithin(members: seq<Member>, budget: nat)
    decreases members
  {
    members == [] || (NestedWithin(members[0].value, budget) && MembersNestedWithin(members[1..], budget))
  }

  // --------------------------------------------------------- reference parser

  /** A parsed thing and the bytes after it. */
  datatype Parsed<+T> = Fail | Done(value: T, rest: seq<byte>)

  /** Group `k` of a variable-length integer: at most ten groups, no zero top group, 64 bits. */
  function ParseGroups(s: seq<byte>, k: nat): (r: Parsed<nat>)
    ensures r.Done? ==> |r.rest| < |s|
  {
    if s == [] || k > 9 then Fail
    else
      var payload := s[0] % 128;
      if (k == 9 && payload > 1) || (k != 0 && payload == 0 && s[0] < 128) then Fail
      else if s[0] < 128 then Done(payload, s[1..])
      else match ParseGroups(s[1..], k + 1)
        case Fail => Fail
        case Done(v, rest) => Done(payload + 128 * v, rest)
  }

  function ParseVarUint(s: seq<byte>): (r: Parsed<nat>)
    ensures r.Done? ==> |r.rest| < |s|
  {
    ParseGroups(s, 0)
  }

  function ParseCounted(s: seq<byte>): (r: Parsed<seq<byte>>)
    ensures r.Done? ==> |r.rest| < |s|
  {
    match ParseVarUint(s)
    case Fail => Fail
    case Done(n, tail) => if n > |tail| then Fail else Done(tail[..n], tail[n..])
  }

  function ParseLeaf(s: seq<byte>): (r: Parsed<Value>)
    requires s != []
    ensures r.Done? ==> |r.rest| < |s|
  {
    if s[0] == 0 then Done(Null, s[1..])
    else if s[0] == 1 then Done(Bool(false), s[1..])
    else if s[0] == 2 then Done(Bool(true), s[1..])
    else if s[0] == 3 then
      match ParseVarUint(s[1..])
      case Fail => Fail
      case Done(n, rest) => Done(UInt(n), rest)
    else if s[0] == 4 || s[0] == 5 then
      match ParseCounted(s[1..])
      case Fail => Fail
      case Done(t, rest) => Done(if s[0] == 4 then Text(t) else Binary(t), rest)
    else Fail
  }

  function ParseValue(s: seq<byte>, budget: nat): (r: Parsed<Value>)
    ensures r.Done? ==> |r.rest| < |s|
    decreases |s|, 0
  {
    if s == [] then Fail
    else if s[0] != 6 && s[0] != 7 then ParseLeaf(s)
    else if budget == 0 || ParseVarUint(s[1..]).Fail? then Fail
    else
      var Done(count, body) := ParseVarUint(s[1..]);
      if s[0] == 6 then
        match ParseItems(body, count, budget - 1)
        case Fail => Fail
        case Done(items, rest) => Done(Array(items), rest)
      else
        match ParseMembers(body, count, budget - 1)
        case Fail => Fail
        case Done(members, rest) => Done(Object(members), rest)
  }

  function ParseItems(s: seq<byte>, count: nat, budget: nat): (r: Parsed<seq<Value>>)
    ensures r.Done? ==> |r.value| == count && |r.rest| + count <= |s|
    decreases |s|, 1
  {
    if count == 0 then Done([], s)
    else match ParseValue(s, budget)
      case Fail => Fail
      case Done(v, tail) =>
        match ParseItems(tail, count - 1, budget)
        case Fail => Fail
        case Done(others, rest) => Done([v] + others, rest)
  }

  function ParseMember(s: seq<byte>, budget: nat): (r: Parsed<Member>)
    ensures r.Done? ==> |r.rest| + 2 <= |s|
    decreases |s|, 1
  {
    match ParseCounted(s)
    case Fail => Fail
    case Done(key, tail) =>
      match ParseValue(tail, budget)
      case Fail => Fail
      case Done(v, rest) => Done(Member(key, v), rest)
  }

  function ParseMembers(s: seq<byte>, count: nat, budget: nat): (r: Parsed<seq<Member>>)
    ensures r.Done? ==> |r.value| == count && |r.rest| + 2 * count <= |s|
    decreases |s|, 2
  {
    if count == 0 then Done([], s)
    else match ParseMember(s, budget)
      case Fail => Fail
      case Done(m, tail) =>
        match ParseMembers(tail, count - 1, budget)
        case Fail => Fail
        case Done(others, rest) => Done([m] + others, rest)
  }

  // ------------------------------------- the parser inverts the encoding

  /** Values that groups k..9 can still hold. */
  function GroupLimit(k: nat): (r: nat)
    requires k <= 9
    ensures r >= 2
    decreases 9 - k
  {
    if k == 9 then 2 else 128 * GroupLimit(k + 1)
  }

  lemma {:induction false} GroupsSound(s: seq<byte>, k: nat)
    requires k <= 9 && ParseGroups(s, k).Done?
    ensures var Done(v, rest) := ParseGroups(s, k);
            v < GroupLimit(k) && (k == 0 || v > 0) && s == EncodeVarUint(v) + rest
    decreases 9 - k
  {
    if s[0] >= 128 {
      GroupsSound(s[1..], k + 1);
      var Done(v, rest) := ParseGroups(s[1..], k + 1);
      var w := s[0] % 128 + 128 * v;
      assert w / 128 == v && w % 128 == s[0] % 128;
      assert EncodeVarUint(w) == [s[0]] + EncodeVarUint(v);
      HeadTail(s);
      Assoc([s[0]], EncodeVarUint(v), rest);
    } else {
      HeadTail(s);
      assert k < 9 ==> GroupLimit(k) >= 128;
    }
  }

  lemma {:induction false} GroupsComplete(v: nat, rest: seq<byte>, k: nat)
    requires k <= 9 && v < GroupLimit(k) && (k == 0 || v > 0)
    ensures ParseGroups(EncodeVarUint(v) + rest, k) == Done(v, rest)
    decreases 9 - k
  {
    if v >= 128 {
      GroupsComplete(v / 128, rest, k + 1);
      Assoc([v % 128 + 128], EncodeVarUint(v / 128), rest);
      TailOfCons<byte>(v % 128 + 128, EncodeVarUint(v / 128) + rest);
    }
  }

  /** Variable-length integers: accepted exactly when canonical and below 2^64. */
  lemma VarUintExact(s: seq<byte>, v: nat, rest: seq<byte>)
    ensures ParseVarUint(s) == Done(v, rest) <==> v < UINT64_LIMIT && s == EncodeVarUint(v) + rest
  {
    if ParseVarUint(s).Done? { GroupsSound(s, 0); }
    if v < UINT64_LIMIT { GroupsComplete(v, rest, 0); }
  }

  lemma CountedExact(s: seq<byte>, t: seq<byte>, rest: seq<byte>)
    ensures ParseCounted(s) == Done(t, rest) <==> |t| < UINT64_LIMIT && s == EncodeCounted(t) + rest
  {
    var header := EncodeVarUint(|t|);
    Assoc(header, t, rest);
    VarUintExact(s, |t|, t + rest);
    if ParseCounted(s) == Done(t, rest) {
      assert ParseVarUint(s).rest == t + rest;
    }
    if |t| < UINT64_LIMIT && s == EncodeCounted(t) + rest {
      assert (t + rest)[..|t|] == t && (t + rest)[|t|..] == rest;
    }
  }

  lemma TagSplit(tag: byte, content: seq<byte>, rest: seq<byte>)
    ensures var s := [tag] + content + rest; s[0] == tag && s[1..] == content + rest
  {
    Assoc([tag], content, rest);
    TailOfCons(tag, content + rest);
  }

  lemma CountedAssoc(tag: byte, header: seq<byte>, content: seq<byte>, rest: seq<byte>)
    ensures [tag] + header + content + rest == [tag] + (header + (content + rest))
    ensures ([tag] + header + content + rest)[0] == tag
    ensures ([tag] + header + content + rest)[1..] == header + (content + rest)
  {
    Assoc([tag] + header, content, rest);
    Assoc([tag], header, content + rest);
    TailOfCons(tag, header + (content + rest));
  }

  lemma LeafSound(s: seq<byte>)
    requires s != [] && ParseLeaf(s).Done?
    ensures var Done(v, rest) := ParseLeaf(s);
            Encodable(v) && !v.Array? && !v.Object? && s == Encode(v) + rest
  {
    HeadTail(s);
    if s[0] == 3 {
      var Done(v, rest) := ParseVarUint(s[1..]);
      VarUintExact(s[1..], v, rest);
      Assoc([s[0]], EncodeVarUint(v), rest);
    } else if s[0] >= 4 {
      var Done(t, rest) := ParseCounted(s[1..]);
      CountedExact(s[1..], t, rest);
      Assoc([s[0]], EncodeCounted(t), rest);
    }
  }

  lemma {:induction false} ParseSound(s: seq<byte>, budget: nat)
    requires ParseValue(s, budget).Done?
    ensures var Done(v, rest) := ParseValue(s, budget);
            Encodable(v) && NestedWithin(v, budget) && s == Encode(v) + rest
    decreases |s|, 0
  {
    if s[0] != 6 && s[0] != 7 {
      LeafSound(s);
    } else {
      var Done(count, body) := ParseVarUint(s[1..]);
      VarUintExact(s[1..], count, body);
      HeadTail(s);
      if s[0] == 6 {
        ParseItemsSound(body, count, budget - 1);
        var Done(items, rest) := ParseItems(body, count, budget - 1);
        CountedAssoc(6, EncodeVarUint(count), EncodeItems(items), rest);
      } else {
        ParseMembersSound(body, count, budget - 1);
        var Done(members, rest) := ParseMembers(body, count, budget - 1);
        CountedAssoc(7, EncodeVarUint(count), EncodeMembers(members), rest);
      }
    }
  }

  lemma {:induction false} ParseItemsSound(s: seq<byte>, count: nat, budget: nat)
    requires ParseItems(s, count, budget).Done?
    ensures var Done(items, rest) := ParseItems(s, count, budget);
            EncodableItems(items) && ItemsNestedWithin(items, budget) && s == EncodeItems(items) + rest
    decreases |s|, 1
  {
    if count > 0 {
      var Done(v, tail) := ParseValue(s, budget);
      var Done(others, rest) := ParseItems(tail, count - 1, budget);
      ParseSound(s, budget);
      ParseItemsSound(tail, count - 1, budget);
      TailOfCons(v, others);
      Assoc(Encode(v), EncodeItems(others), rest);
    }
  }

  lemma {:induction false} ParseMemberSound(s: seq<byte>, budget: nat)
    requires ParseMember(s, budget).Done?
    ensures var Done(m, rest) := ParseMember(s, budget);
            EncodableMember(m) && NestedWithin(m.value, budget) && s == EncodeMember(m) + rest
    decreases |s|, 1
  {
    var Done(key, tail) := ParseCounted(s);
    CountedExact(s, key, tail);
    ParseSound(tail, budget);
    var Done(v, rest) := ParseValue(tail, budget);
    Assoc(EncodeCounted(key), Encode(v), rest);
  }

  lemma {:induction false} ParseMembersSound(s: seq<byte>, count: nat, budget: nat)
    requires ParseMembers(s, count, budget).Done?
    ensures var Done(members, rest) := ParseMembers(s, count, budget);
            EncodableMembers(members) && MembersNestedWithin(members, budget) && s == EncodeMembers(members) + rest
    decreases |s|, 2
  {
    if count > 0 {
      var Done(m, tail) := ParseMember(s, budget);
      var Done(others, rest) := ParseMembers(tail, count - 1, budget);
      ParseMemberSound(s, budget);
      ParseMembersSound(tail, count - 1, budget);
      TailOfCons(m, others);
      Assoc(EncodeMember(m), EncodeMembers(others), rest);
    }
  }

  lemma LeafComplete(v: Value, rest: seq<byte>)
    requires Encodable(v) && !v.Array? && !v.Object?
    ensures var s := Encode(v) + rest; s[0] < 6 && ParseLeaf(s) == Done(v, rest)
  {
    var s := Encode(v) + rest;
    match v {
      case Null =>
      case Bool(_) =>
      case UInt(n) =>
        TagSplit(3, EncodeVarUint(n), rest);
        VarUintExact(s[1..], n, rest);
      case Text(t) =>
        TagSplit(4, EncodeCounted(t), rest);
        CountedExact(s[1..], t, rest);
      case Binary(t) =>
        TagSplit(5, EncodeCounted(t), rest);
        CountedExact(s[1..], t, rest);
    }
  }

  lemma {:induction false} ParseComplete(v: Value, rest: seq<byte>, budget: nat)
    requires Encodable(v) && NestedWithin(v, budget)
    ensures ParseValue(Encode(v) + rest, budget) == Done(v, rest)
    decreases v
  {
    var s := Encode(v) + rest;
    match v {
      case Array(items) =>
        var body := EncodeItems(items) + rest;
        CountedAssoc(6, EncodeVarUint(|items|), EncodeItems(items), rest);
        VarUintExact(s[1..], |items|, body);
        ParseItemsComplete(items, rest, budget - 1);
      case Object(members) =>
        var body := EncodeMembers(members) + rest;
        CountedAssoc(7, EncodeVarUint(|members|), EncodeMembers(members), rest);
        VarUintExact(s[1..], |members|, body);
        ParseMembersComplete(members, rest, budget - 1);
      case _ => LeafComplete(v, rest);
    }
  }

  lemma {:induction false} ParseItemsComplete(items: seq<Value>, rest: seq<byte>, budget: nat)
    requires EncodableItems(items) && ItemsNestedWithin(items, budget)
    ensures ParseItems(EncodeItems(items) + rest, |items|, budget) == Done(items, rest)
    decreases items
  {
    if items == [] {
      assert EncodeItems(items) + rest == rest;
    } else {
      var tail := EncodeItems(items[1..]) + rest;
      Assoc(Encode(items[0]), EncodeItems(items[1..]), rest);
      ParseComplete(items[0], tail, budget);
      ParseItemsComplete(items[1..], rest, budget);
      HeadTail(items);
    }
  }

  lemma {:induction false} ParseMemberComplete(m: Member, rest: seq<byte>, budget: nat)
    requires EncodableMember(m) && NestedWithin(m.value, budget)
    ensures ParseMember(EncodeMember(m) + rest, budget) == Done(m, rest)
    decreases m
  {
    var tail := Encode(m.value) + rest;
    Assoc(EncodeCounted(m.key), Encode(m.value), rest);
    CountedExact(EncodeMember(m) + rest, m.key, tail);
    ParseComplete(m.value, rest, budget);
  }

  lemma {:induction false} ParseMembersComplete(members: seq<Member>, rest: seq<byte>, budget: nat)
    requires EncodableMembers(members) && MembersNestedWithin(members, budget)
    ensures ParseMembers(EncodeMembers(members) + rest, |members|, budget) == Done(members, rest)
    decreases members
  {
    if members == [] {
      assert EncodeMembers(members) + rest == rest;
    } else {
      var tail := EncodeMembers(members[1..]) + rest;
      Assoc(EncodeMember(members[0]), EncodeMembers(members[1..]), rest);
      ParseMemberComplete(members[0], tail, budget);
      ParseMembersComplete(members[1..], rest, budget);
      HeadTail(members);
    }
  }

  /**
   Soundness and completeness: the bytes parse to v, leaving rest, exactly when they
   are the encoding of v followed by rest, and v is encodable and nested within the budget.
   */
  lemma ParseExact(s: seq<byte>, budget: nat, v: Value, rest: seq<byte>)
    ensures ParseValue(s, budget) == Done(v, rest)
       <==> Encodable(v) && NestedWithin(v, budget) && s == Encode(v) + rest
  {
    if ParseValue(s, budget).Done? { ParseSound(s, budget); }
    if Encodable(v) && NestedWithin(v, budget) { ParseComplete(v, rest, budget); }
  }

  /** No encoding is a proper prefix of another, so a tree is recovered whatever follows it. */
  lemma EncodingIsPrefixFree(v: Value, w: Value, vRest: seq<byte>, wRest: seq<byte>)
    requires Encodable(v) && Encodable(w)
    requires Encode(v) + vRest == Encode(w) + wRest
    ensures v == w && vRest == wRest
  {
    var budget := Depth(v) + Depth(w);
    DepthBounds(v, budget);
    DepthBounds(w, budget);
    ParseComplete(v, vRest, budget);
    ParseComplete(w, wRest, budget);
  }

  /** The number of containers on the deepest path. */
  function Depth(v: Value): nat
    decreases v
  {
    match v
    case Array(items) => 1 + DepthItems(items)
    case Object(members) => 1 + DepthMembers(members)
    case _ => 0
  }

  function DepthItems(items: seq<Value>): nat
    decreases items
  {
    if items == [] then 0
    else
      var (d, r) := (Depth(items[0]), DepthItems(items[1..]));
      if d > r then d else r
  }

  function DepthMembers(members: seq<Member>): nat
    decreases members
  {
    if members == [] then 0
    else
      var (d, r) := (Depth(members[0].value), DepthMembers(members[1..]));
      if d > r then d else r
  }

  lemma {:induction false} DepthBounds(v: Value, budget: nat)
    ensures NestedWithin(v, budget) <==> Depth(v) <= budget
    decreases v
  {
    match v {
      case Array(items) => if budget > 0 { DepthBoundsItems(items, budget - 1); }
      case Object(members) => if budget > 0 { DepthBoundsMembers(members, budget - 1); }
      case _ =>
    }
  }

  lemma {:induction false} DepthBoundsItems(items: seq<Value>, budget: nat)
    ensures ItemsNestedWithin(items, budget) <==> DepthItems(items) <= budget
    decreases items
  {
    if items != [] {
      DepthBounds(items[0], budget);
      DepthBoundsItems(items[1..], budget);
    }
  }

  lemma {:induction false} DepthBoundsMembers(members: seq<Member>, budget: nat)
    ensures MembersNestedWithin(members, budget) <==> DepthMembers(members) <= budget
    decreases members
  {
    if members != [] {
      DepthBounds(members[0].value, budget);
      DepthBoundsMembers(members[1..], budget);
    }
  }
}
