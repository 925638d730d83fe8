/**
 The lookups of builder/src/launcher_config.c in the embedded slot: the version
 policy, the application id and the notification class id.  Each method is proved
 against a scan of the raw bytes, and each scan against a walk of the decoded tree.
 */
module EmbeddedConfig {
  import opened Common
  import opened Policies
  import opened Tlv
  import opened TlvReader

  const SLOT_SIZE: nat := 65536

  const EMPTY_MARKER: seq<byte> := [
    0x6d, 0x75, 0x6f, 0x6e, 0x2d, 0x6c, 0x61, 0x75, 0x6e, 0x63, 0x68, 0x65, 0x72, 0x3a, 0x65, 0x6d,
    0x62, 0x65, 0x64, 0x2d, 0x63, 0x6f, 0x6e, 0x66, 0x69, 0x67, 0x3a, 0x76, 0x31, 0x00, 0x5d]

  predicate IsAscii(s: string) {
    forall i | 0 <= i < |s| :: s[i] < 128 as char
  }

  function Ascii(s: string): (r: seq<byte>)
    requires IsAscii(s)
  {
    seq(|s|, i requires 0 <= i < |s| => s[i] as int)
  }

  const LAUNCHER := Ascii("launcher")
  const DEFAULT_VERSION_POLICY := Ascii("defaultVersionPolicy")
  const APP_ID := Ascii("appId")
  const NOTIFICATION_REGISTRATION := Ascii("notificationRegistration")
  const ACTIVATOR_CLSID := Ascii("activatorClsid")
  const TESTED := Ascii("tested")

  /** The characters that bytes stand for. */
  function Characters(s: seq<byte>): string { seq(|s|, i requires 0 <= i < |s| => s[i] as char) }

  /** What a getter reports: an error, no such key, or the string found. */
  datatype Lookup = Invalid | Absent | Found(text: seq<byte>)

  /** A launcher-level string key: the version policy must be a known policy, the app id is free. */
  datatype LauncherKey = VersionPolicy | AppId
  {
    function Name(): seq<byte> { if VersionPolicy? then DEFAULT_VERSION_POLICY else APP_ID }
    predicate Accepts(s: seq<byte>) { AppId? || IsValidPolicy(Characters(s)) }
    function Default(): Lookup { if VersionPolicy? then Found(TESTED) else Absent }
  }

  // ------------------------------------------------- lookups in the tree

  /** The string a C reader accepts: a text value without an embedded zero byte. */
  function CString(v: Value): Option<seq<byte>> {
    if v.Text? && 0 !in v.text then Some(v.text) else None
  }

  /** Members of one launcher object, in order; the first member with the key decides. */
  function InLauncher(key: LauncherKey, members: seq<Member>): Lookup {
    if members == [] then Absent
    else
      var m := members[0];
      if 0 in m.key then Invalid
      else if m.key == key.Name() then
        match CString(m.value)
        case None => Invalid
        case Some(s) => if key.Accepts(s) then Found(s) else Invalid
      else if !NestedWithin(m.value, MAX_NESTING_DEPTH) then Invalid
      else InLauncher(key, members[1..])
  }

  /** Members of the root, in order; a launcher object without the key does not end the search. */
  function InRoot(key: LauncherKey, members: seq<Member>): Lookup {
    if members == [] then key.Default()
    else
      var m := members[0];
      if 0 in m.key then Invalid
      else if m.key == LAUNCHER then
        if !m.value.Object? then Invalid
        else match InLauncher(key, m.value.members)
          case Absent => InRoot(key, members[1..])
          case decided => decided
      else if !NestedWithin(m.value, MAX_NESTING_DEPTH) then Invalid
      else InRoot(key, members[1..])
  }

  /** The first member with the key, if every earlier one is well formed. */
  datatype Match = Broken | Missing | At(value: Value)

  function FirstMatch(key: seq<byte>, members: seq<Member>): Match {
    if members == [] then Missing
    else
      var m := members[0];
      if 0 in m.key then Broken
      else if m.key == key then At(m.value)
      else if !NestedWithin(m.value, MAX_NESTING_DEPTH) then Broken
      else FirstMatch(key, members[1..])
  }

  /** The class id commits to the first match at each level. */
  function AlongPath(keys: seq<seq<byte>>, v: Value): Lookup {
    if keys == [] then
      match CString(v)
      case None => Invalid
      case Some(s) => if s == [] then Invalid else Found(s)
    else if !v.Object? then Invalid
    else match FirstMatch(keys[0], v.members)
      case Broken => Invalid
      case Missing => Absent
      case At(w) => AlongPath(keys[1..], w)
  }

  const CLSID_PATH := [LAUNCHER, NOTIFICATION_REGISTRATION, ACTIVATOR_CLSID]

  // ------------------------------------------- the same lookups on raw bytes

  /** A counted container header that the remaining bytes can hold. */
  function ReadHeader(s: seq<byte>, tag: byte, minimum: nat): Parsed<nat>
    requires minimum > 0
  {
    if s == [] || s[0] != tag then Fail
    else match ParseVarUint(s[1..])
      case Fail => Fail
      case Done(count, rest) => if count <= |rest| / minimum then Done(count, rest) else Fail
  }

  function ReadKey(s: seq<byte>): Parsed<seq<byte>> {
    match ParseCounted(s)
    case Fail => Fail
    case Done(key, rest) => if 0 in key then Fail else Done(key, rest)
  }

  function ReadCString(s: seq<byte>): Parsed<seq<byte>> {
    if s == [] || s[0] != 4 then Fail else ReadKey(s[1..])
  }

  /** A scan that found nothing stands after the object's last member. */
  datatype Scan = Bad | Hit(text: seq<byte>) | Miss(rest: seq<byte>)

  function ScanLauncher(key: LauncherKey, s: seq<byte>, count: nat): Scan
    decreases count
  {
    if count == 0 then Miss(s)
    else match ReadKey(s)
      case Fail => Bad
      case Done(k, tail) =>
        if k == key.Name() then
          match ReadCString(tail)
          case Fail => Bad
          case Done(text, _) => if key.Accepts(text) then Hit(text) else Bad
        else match ParseValue(tail, MAX_NESTING_DEPTH)
          case Fail => Bad
          case Done(_, rest) => ScanLauncher(key, rest, count - 1)
  }

  function ScanRoot(key: LauncherKey, s: seq<byte>, count: nat): Lookup
    decreases count
  {
    if count == 0 then key.Default()
    else match ReadKey(s)
      case Fail => Invalid
      case Done(k, tail) =>
        if k == LAUNCHER then
          match ReadHeader(tail, 7, 2)
          case Fail => Invalid
          case Done(inner, body) =>
            match ScanLauncher(key, body, inner)
            case Bad => Invalid
            case Hit(text) => Found(text)
            case Miss(rest) => ScanRoot(key, rest, count - 1)
        else match ParseValue(tail, MAX_NESTING_DEPTH)
          case Fail => Invalid
          case Done(_, rest) => ScanRoot(key, rest, count - 1)
  }

  /** Where the value of the first member with the key begins. */
  function ScanFor(key: seq<byte>, s: seq<byte>, count: nat): Scan
    decreases count
  {
    if count == 0 then Miss(s)
    else match ReadKey(s)
      case Fail => Bad
      case Done(k, tail) =>
        if k == key then Hit(tail)
        else match ParseValue(tail, MAX_NESTING_DEPTH)
          case Fail => Bad
          case Done(_, rest) => ScanFor(key, rest, count - 1)
  }

  function ScanPath(keys: seq<seq<byte>>, s: seq<byte>): Lookup {
    if keys == [] then
      match ReadCString(s)
      case Fail => Invalid
      case Done(text, _) => if text == [] then Invalid else Found(text)
    else match ReadHeader(s, 7, 2)
      case Fail => Invalid
      case Done(count, body) =>
        match ScanFor(keys[0], body, count)
        case Bad => Invalid
        case Miss(_) => Absent
        case Hit(tail) => ScanPath(keys[1..], tail)
  }

  predicate SlotIsEmpty(slot: seq<byte>) {
    EMPTY_MARKER <= slot && forall i | |EMPTY_MARKER| <= i < |slot| :: slot[i] == 0
  }

  function StringInSlot(key: LauncherKey, slot: seq<byte>): Lookup {
    if SlotIsEmpty(slot) then key.Default()
    else match ReadHeader(slot, 7, 2)
      case Fail => Invalid
      case Done(count, body) => ScanRoot(key, body, count)
  }

  function ClsidInSlot(slot: seq<byte>): Lookup {
    if SlotIsEmpty(slot) then Absent else ScanPath(CLSID_PATH, slot)
  }

  // ------------------------------------------------ bytes refine the tree

  /** An encoded object opens with a header that the size check never rejects. */
  lemma HeaderOfObject(members: seq<Member>, rest: seq<byte>)
    requires Encodable(Object(members))
    ensures var s := Encode(Object(members)) + rest;
            s != [] && ReadHeader(s, 7, 2) == Done(|members|, EncodeMembers(members) + rest)
  {
    var body := EncodeMembers(members) + rest;
    CountedAssoc(7, EncodeVarUint(|members|), EncodeMembers(members), rest);
    VarUintExact(EncodeVarUint(|members|) + body, |members|, body);
  }

  lemma HeaderOfOther(v: Value, rest: seq<byte>)
    requires Encodable(v) && !v.Object?
    ensures ReadHeader(Encode(v) + rest, 7, 2).Fail?
  {
  }

  lemma KeyOfMember(m: Member, rest: seq<byte>)
    requires EncodableMember(m)
    ensures ReadKey(EncodeMember(m) + rest) == if 0 in m.key then Fail else Done(m.key, Encode(m.value) + rest)
  {
    Assoc(EncodeCounted(m.key), Encode(m.value), rest);
    CountedExact(EncodeMember(m) + rest, m.key, Encode(m.value) + rest);
  }

  lemma CStringOfValue(v: Value, rest: seq<byte>)
    requires Encodable(v)
    ensures ReadCString(Encode(v) + rest) == match CString(v) case None => Fail case Some(s) => Done(s, rest)
  {
    assert (Encode(v) + rest)[0] == Encode(v)[0];
    if v.Text? {
      TagSplit(4, EncodeCounted(v.text), rest);
      CountedExact(EncodeCounted(v.text) + rest, v.text, rest);
    }
  }

  /** A value deeper than 64 levels is rejected; any other is passed whole. */
  lemma ValuePassed(v: Value, rest: seq<byte>)
    requires Encodable(v)
    ensures After(ParseValue(Encode(v) + rest, MAX_NESTING_DEPTH))
         == if NestedWithin(v, MAX_NESTING_DEPTH) then Some(rest) else None
  {
    var s := Encode(v) + rest;
    if NestedWithin(v, MAX_NESTING_DEPTH) {
      ParseComplete(v, rest, MAX_NESTING_DEPTH);
    } else if ParseValue(s, MAX_NESTING_DEPTH).Done? {
      var Done(w, wRest) := ParseValue(s, MAX_NESTING_DEPTH);
      ParseSound(s, MAX_NESTING_DEPTH);
      EncodingIsPrefixFree(v, w, rest, wRest);
    }
  }

  lemma MembersUncons(members: seq<Member>, rest: seq<byte>)
    requires members != []
    ensures EncodeMembers(members) + rest == EncodeMember(members[0]) + (EncodeMembers(members[1..]) + rest)
  {
  }

  lemma {:induction false} ScanLauncherRefines(key: LauncherKey, members: seq<Member>, rest: seq<byte>)
    requires EncodableMembers(members)
    ensures ScanLauncher(key, EncodeMembers(members) + rest, |members|)
         == match InLauncher(key, members)
            case Invalid => Bad
            case Absent => Miss(rest)
            case Found(text) => Hit(text)
  {
    hide ParseValue, NestedWithin, Encode, EncodeMember, ParseCounted, Ascii, LauncherKey.Accepts, LauncherKey.Name,
      ReadCString, CString, ReadKey;
    if members == [] {
      assert EncodeMembers(members) + rest == rest;
    } else {
      var m, tail := members[0], EncodeMembers(members[1..]) + rest;
      MembersUncons(members, rest);
      KeyOfMember(m, tail);
      CStringOfValue(m.value, tail);
      ValuePassed(m.value, tail);
      ScanLauncherRefines(key, members[1..], rest);
    }
  }

  lemma {:induction false} ScanRootRefines(key: LauncherKey, members: seq<Member>, rest: seq<byte>)
    requires EncodableMembers(members)
    ensures ScanRoot(key, EncodeMembers(members) + rest, |members|) == InRoot(key, members)
  {
    hide ParseValue, NestedWithin, Encode, EncodeMember, ParseCounted, Ascii, ReadHeader, ReadKey, ScanLauncher, InLauncher;
    if members != [] {
      var m, tail := members[0], EncodeMembers(members[1..]) + rest;
      MembersUncons(members, rest);
      KeyOfMember(m, tail);
      ValuePassed(m.value, tail);
      ScanRootRefines(key, members[1..], rest);
      if m.value.Object? {
        HeaderOfObject(m.value.members, tail);
        ScanLauncherRefines(key, m.value.members, tail);
      } else {
        HeaderOfOther(m.value, tail);
      }
    }
  }

  lemma {:induction false} ScanForRefines(key: seq<byte>, members: seq<Member>, rest: seq<byte>)
    requires EncodableMembers(members)
    ensures match FirstMatch(key, members)
            case Broken => ScanFor(key, EncodeMembers(members) + rest, |members|) == Bad
            case Missing => ScanFor(key, EncodeMembers(members) + rest, |members|) == Miss(rest)
            case At(v) => Encodable(v) && exists more :: ScanFor(key, EncodeMembers(members) + rest, |members|) == Hit(Encode(v) + more)
  {
    hide ParseValue, NestedWithin, Encode, EncodeMember, ParseCounted, ReadKey;
    if members == [] {
      assert EncodeMembers(members) + rest == rest;
    } else {
      var m, tail := members[0], EncodeMembers(members[1..]) + rest;
      MembersUncons(members, rest);
      KeyOfMember(m, tail);
      ValuePassed(m.value, tail);
      ScanForRefines(key, members[1..], rest);
    }
  }

  lemma {:induction false} ScanPathRefines(keys: seq<seq<byte>>, v: Value, rest: seq<byte>)
    requires Encodable(v)
    ensures ScanPath(keys, Encode(v) + rest) == AlongPath(keys, v)
  {
    hide ReadHeader, Encode, ScanFor, FirstMatch, ReadCString, CString;
    if keys == [] {
      CStringOfValue(v, rest);
    } else if v.Object? {
      HeaderOfObject(v.members, rest);
      ScanForRefines(keys[0], v.members, rest);
      if FirstMatch(keys[0], v.members).At? {
        var w := FirstMatch(keys[0], v.members).value;
        var more :| ScanFor(keys[0], EncodeMembers(v.members) + rest, |v.members|) == Hit(Encode(w) + more);
        ScanPathRefines(keys[1..], w, more);
      }
    } else {
      HeaderOfOther(v, rest);
    }
  }

  lemma EncodedSlotIsNotEmpty(members: seq<Member>, padding: seq<byte>)
    ensures !SlotIsEmpty(Encode(Object(members)) + padding)
  {
    var s := Encode(Object(members)) + padding;
    assert s[0] == Encode(Object(members))[0] == 7;
  }

  /**
   In a slot holding an encoded root object and any padding, each getter returns
   what its own scan order selects in the decoded tree.
   */
  lemma LookupsRefineTree(members: seq<Member>, padding: seq<byte>)
    requires Encodable(Object(members))
    ensures var slot := Encode(Object(members)) + padding;
            && (forall key: LauncherKey :: StringInSlot(key, slot) == InRoot(key, members))
            && ClsidInSlot(slot) == AlongPath(CLSID_PATH, Object(members))
  {
    hide ScanRoot, InRoot, ScanPath, AlongPath, SlotIsEmpty, Encode, CLSID_PATH;
    EncodedSlotIsNotEmpty(members, padding);
    HeaderOfObject(members, padding);
    forall key: LauncherKey
      ensures StringInSlot(key, Encode(Object(members)) + padding) == InRoot(key, members)
    {
      ScanRootRefines(key, members, padding);
    }
    ScanPathRefines(CLSID_PATH, Object(members), padding);
  }

  /** Member j holds the text for the key, and every member before it can be passed over. */
  ghost predicate DecidesAt(key: LauncherKey, members: seq<Member>, j: nat, text: seq<byte>) {
    && j < |members| && members[j].key == key.Name()
    && CString(members[j].value) == Some(text) && key.Accepts(text)
    && forall i | 0 <= i < j :: PassedOver(key, members[i])
  }

  predicate PassedOver(key: LauncherKey, m: Member) {
    0 !in m.key && m.key != key.Name() && NestedWithin(m.value, MAX_NESTING_DEPTH)
  }

  lemma DecidesLater(key: LauncherKey, members: seq<Member>, j: nat, text: seq<byte>)
    requires members != []
    ensures DecidesAt(key, members, j + 1, text)
       <==> PassedOver(key, members[0]) && DecidesAt(key, members[1..], j, text)
  {
  }

  lemma {:induction false} LauncherFindsFirst(key: LauncherKey, members: seq<Member>, text: seq<byte>)
    ensures InLauncher(key, members) == Found(text) <==> exists j: nat :: DecidesAt(key, members, j, text)
    ensures InLauncher(key, members) == Absent <==> forall m | m in members :: PassedOver(key, m)
  {
    hide NestedWithin, CString, LauncherKey.Accepts, LauncherKey.Name, DecidesAt;
    NamesAreCStrings(key);
    if members == [] {
      NothingDecidesLauncher(key, text);
    } else {
      AllUncons(key, members);
      LauncherFindsFirst(key, members[1..], text);
      DecidesNow(key, members, text);
      if j: nat :| DecidesAt(key, members[1..], j, text) {
        DecidesLater(key, members, j, text);
      }
      if j: nat :| DecidesAt(key, members, j, text) {
        if j > 0 { DecidesLater(key, members, j - 1, text); }
      }
    }
  }

  lemma AllUncons(key: LauncherKey, members: seq<Member>)
    requires members != []
    ensures (forall m | m in members :: PassedOver(key, m))
       <==> PassedOver(key, members[0]) && forall m | m in members[1..] :: PassedOver(key, m)
  {
  }

  lemma NothingDecidesLauncher(key: LauncherKey, text: seq<byte>)
    ensures forall j: nat :: !DecidesAt(key, [], j, text)
  {}

  lemma DecidesNow(key: LauncherKey, members: seq<Member>, text: seq<byte>)
    requires members != []
    ensures DecidesAt(key, members, 0, text)
       <==> members[0].key == key.Name() && CString(members[0].value) == Some(text) && key.Accepts(text)
  {}

  lemma NamesAreCStrings(key: LauncherKey)
    ensures 0 !in key.Name()
  {}

  /** A root member the search goes past: a launcher object without the key, or any other sound member. */
  predicate RootPassedOver(key: LauncherKey, m: Member) {
    && 0 !in m.key
    && if m.key == LAUNCHER then m.value.Object? && InLauncher(key, m.value.members) == Absent
       else NestedWithin(m.value, MAX_NESTING_DEPTH)
  }

  ghost predicate RootDecidesAt(key: LauncherKey, members: seq<Member>, i: nat, text: seq<byte>) {
    && i < |members| && members[i].key == LAUNCHER && members[i].value.Object?
    && (exists j: nat :: DecidesAt(key, members[i].value.members, j, text))
    && forall k | 0 <= k < i :: RootPassedOver(key, members[k])
  }

  lemma RootDecidesLater(key: LauncherKey, members: seq<Member>, i: nat, text: seq<byte>)
    requires members != []
    ensures RootDecidesAt(key, members, i + 1, text)
       <==> RootPassedOver(key, members[0]) && RootDecidesAt(key, members[1..], i, text)
  {
  }

  lemma RootDecidesNow(key: LauncherKey, members: seq<Member>, text: seq<byte>)
    requires members != []
    ensures RootDecidesAt(key, members, 0, text)
       <==> members[0].key == LAUNCHER && members[0].value.Object? && InLauncher(key, members[0].value.members) == Found(text)
  {
    hide DecidesAt, InLauncher, LAUNCHER;
    if members[0].value.Object? { LauncherFindsFirst(key, members[0].value.members, text); }
  }

  /**
   The policy and the application id come from the first launcher object that has
   the key, however many launcher objects without it precede; the default applies
   exactly when every member can be gone past.
   */
  lemma {:induction false} RootFindsFirst(key: LauncherKey, members: seq<Member>, text: seq<byte>)
    ensures InRoot(key, members) == Found(text)
       <==> || (exists i: nat :: RootDecidesAt(key, members, i, text))
            || (key.Default() == Found(text) && forall m | m in members :: RootPassedOver(key, m))
    ensures InRoot(key, members) == Absent
       <==> key.Default() == Absent && forall m | m in members :: RootPassedOver(key, m)
  {
    hide NestedWithin, InLauncher, RootDecidesAt, LauncherKey.Default, LauncherKey.Name, LAUNCHER;
    assert 0 !in LAUNCHER by { LauncherIsCString(); }
    if members == [] {
      NothingDecides(key, text);
    } else {
      RootAllUncons(key, members);
      RootFindsFirst(key, members[1..], text);
      RootDecidesNow(key, members, text);
      if i: nat :| RootDecidesAt(key, members[1..], i, text) {
        RootDecidesLater(key, members, i, text);
      }
      if i: nat :| RootDecidesAt(key, members, i, text) {
        if i > 0 { RootDecidesLater(key, members, i - 1, text); }
      }
    }
  }

  lemma RootAllUncons(key: LauncherKey, members: seq<Member>)
    requires members != []
    ensures (forall m | m in members :: RootPassedOver(key, m))
       <==> RootPassedOver(key, members[0]) && forall m | m in members[1..] :: RootPassedOver(key, m)
  {
  }

  lemma LauncherIsCString()
    ensures 0 !in LAUNCHER
  {}

  lemma NothingDecides(key: LauncherKey, text: seq<byte>)
    ensures forall i: nat :: !RootDecidesAt(key, [], i, text)
  {}

  /** A launcher member that ends the search with an error. */
  predicate Spoils(key: LauncherKey, m: Member) {
    || 0 in m.key
    || (if m.key == key.Name() then CString(m.value).None? || !key.Accepts(CString(m.value).value)
        else !NestedWithin(m.value, MAX_NESTING_DEPTH))
  }

  ghost predicate SpoilsAt(key: LauncherKey, members: seq<Member>, j: nat) {
    j < |members| && Spoils(key, members[j]) && forall i | 0 <= i < j :: PassedOver(key, members[i])
  }

  lemma SpoilsLater(key: LauncherKey, members: seq<Member>, j: nat)
    requires members != []
    ensures SpoilsAt(key, members, j + 1) <==> PassedOver(key, members[0]) && SpoilsAt(key, members[1..], j)
  {
  }

  /** A launcher object is rejected exactly for a bad member before any member with the key, or at the first one. */
  lemma {:induction false} LauncherRejects(key: LauncherKey, members: seq<Member>)
    ensures InLauncher(key, members) == Invalid <==> exists j: nat :: SpoilsAt(key, members, j)
  {
    hide NestedWithin, CString, LauncherKey.Accepts, LauncherKey.Name;
    NamesAreCStrings(key);
    if members != [] {
      hide SpoilsAt;
      LauncherRejects(key, members[1..]);
      SpoilsNow(key, members);
      if j: nat :| SpoilsAt(key, members[1..], j) {
        SpoilsLater(key, members, j);
      }
      if j: nat :| SpoilsAt(key, members, j) {
        if j > 0 { SpoilsLater(key, members, j - 1); }
      }
    }
  }

  lemma SpoilsNow(key: LauncherKey, members: seq<Member>)
    requires members != []
    ensures SpoilsAt(key, members, 0) <==> Spoils(key, members[0])
  {
  }

  /** A root member that ends the search with an error. */
  ghost predicate RootSpoils(key: LauncherKey, m: Member) {
    || 0 in m.key
    || (if m.key == LAUNCHER then !m.value.Object? || exists j: nat :: SpoilsAt(key, m.value.members, j)
        else !NestedWithin(m.value, MAX_NESTING_DEPTH))
  }

  ghost predicate RootSpoilsAt(key: LauncherKey, members: seq<Member>, i: nat) {
    i < |members| && RootSpoils(key, members[i]) && forall k | 0 <= k < i :: RootPassedOver(key, members[k])
  }

  lemma RootSpoilsLater(key: LauncherKey, members: seq<Member>, i: nat)
    requires members != []
    ensures RootSpoilsAt(key, members, i + 1) <==> RootPassedOver(key, members[0]) && RootSpoilsAt(key, members[1..], i)
  {
    hide RootSpoils, RootPassedOver;
  }

  lemma RootSpoilsNow(key: LauncherKey, members: seq<Member>)
    requires members != []
    ensures RootSpoilsAt(key, members, 0)
       <==> || 0 in members[0].key
            || (if members[0].key == LAUNCHER then !members[0].value.Object? || InLauncher(key, members[0].value.members) == Invalid
                else !NestedWithin(members[0].value, MAX_NESTING_DEPTH))
  {
    hide InLauncher, NestedWithin, SpoilsAt, LAUNCHER;
    if members[0].value.Object? { LauncherRejects(key, members[0].value.members); }
  }

  /** The lookup fails exactly for a bad member before any launcher object with the key, or at the first one. */
  lemma {:induction false} RootRejects(key: LauncherKey, members: seq<Member>)
    ensures InRoot(key, members) == Invalid <==> exists i: nat :: RootSpoilsAt(key, members, i)
  {
    hide NestedWithin, InLauncher, LauncherKey.Name, LAUNCHER;
    assert 0 !in LAUNCHER by { LauncherIsCString(); }
    if members != [] {
      hide RootSpoilsAt, LauncherKey.Default;
      RootRejects(key, members[1..]);
      RootSpoilsNow(key, members);
      if i: nat :| RootSpoilsAt(key, members[1..], i) {
        RootSpoilsLater(key, members, i);
      }
      if i: nat :| RootSpoilsAt(key, members, i) {
        if i > 0 { RootSpoilsLater(key, members, i - 1); }
      }
    }
  }

  // --------------------------------------------------- the class id by positions

  /** A member that a search for the key goes past. */
  predicate KeyPassed(key: seq<byte>, m: Member) {
    0 !in m.key && m.key != key && NestedWithin(m.value, MAX_NESTING_DEPTH)
  }

  /** Member j is the first with the key, and everything before it can be passed. */
  predicate KeyAt(key: seq<byte>, members: seq<Member>, j: nat) {
    j < |members| && members[j].key == key && forall i | 0 <= i < j :: KeyPassed(key, members[i])
  }

  /** Member j ends the search with an error. */
  predicate KeySpoilt(key: seq<byte>, members: seq<Member>, j: nat) {
    && j < |members| && (0 in members[j].key || (members[j].key != key && !NestedWithin(members[j].value, MAX_NESTING_DEPTH)))
    && forall i | 0 <= i < j :: KeyPassed(key, members[i])
  }

  lemma KeyNow(key: seq<byte>, members: seq<Member>)
    requires members != []
    ensures KeyAt(key, members, 0) <==> members[0].key == key
    ensures KeySpoilt(key, members, 0)
       <==> 0 in members[0].key || (members[0].key != key && !NestedWithin(members[0].value, MAX_NESTING_DEPTH))
  {
  }

  lemma KeyLater(key: seq<byte>, members: seq<Member>, j: nat)
    requires members != []
    ensures KeyAt(key, members, j + 1) <==> KeyPassed(key, members[0]) && KeyAt(key, members[1..], j)
    ensures KeySpoilt(key, members, j + 1) <==> KeyPassed(key, members[0]) && KeySpoilt(key, members[1..], j)
  {
    hide KeyPassed, NestedWithin;
  }

  lemma AllPassedUncons(key: seq<byte>, members: seq<Member>)
    requires members != []
    ensures (forall m | m in members :: KeyPassed(key, m))
       <==> KeyPassed(key, members[0]) && forall m | m in members[1..] :: KeyPassed(key, m)
  {
  }

  /** The search for a key in one level. */
  lemma {:induction false} FirstMatchMeans(key: seq<byte>, members: seq<Member>, v: Value)
    requires 0 !in key
    ensures FirstMatch(key, members) == At(v) <==> exists j: nat :: KeyAt(key, members, j) && members[j].value == v
    ensures FirstMatch(key, members) == Missing <==> forall m | m in members :: KeyPassed(key, m)
    ensures FirstMatch(key, members) == Broken <==> exists j: nat :: KeySpoilt(key, members, j)
  {
    hide NestedWithin;
    if members != [] {
      hide KeyAt, KeySpoilt;
      FirstMatchMeans(key, members[1..], v);
      AllPassedUncons(key, members);
      KeyNow(key, members);
      if j: nat :| KeyAt(key, members[1..], j) && members[1..][j].value == v {
        KeyLater(key, members, j);
        assert members[j + 1] == members[1..][j];
      }
      if j: nat :| KeySpoilt(key, members[1..], j) {
        KeyLater(key, members, j);
      }
      if j: nat :| KeyAt(key, members, j) && members[j].value == v {
        if j > 0 {
          KeyLater(key, members, j - 1);
          assert members[j] == members[1..][j - 1];
        }
      }
      if j: nat :| KeySpoilt(key, members, j) {
        if j > 0 {
          KeyLater(key, members, j - 1);
        }
      }
    }
  }

  /** Following the keys, each at its first place, leads to the non-empty text without a zero byte. */
  ghost predicate PathFinds(keys: seq<seq<byte>>, v: Value, text: seq<byte>) {
    if keys == [] then v == Text(text) && 0 !in text && text != []
    else v.Object? && exists j: nat :: KeyAt(keys[0], v.members, j) && PathFinds(keys[1..], v.members[j].value, text)
  }

  /** On the way through objects some key is missing. */
  ghost predicate PathMisses(keys: seq<seq<byte>>, v: Value) {
    keys != [] && v.Object?
    && ((forall m | m in v.members :: KeyPassed(keys[0], m))
        || exists j: nat :: KeyAt(keys[0], v.members, j) && PathMisses(keys[1..], v.members[j].value))
  }

  /** On the way something is no object, a member is malformed, or the end is no usable text. */
  ghost predicate PathFails(keys: seq<seq<byte>>, v: Value) {
    if keys == [] then !v.Text? || 0 in v.text || v.text == []
    else
      || !v.Object?
      || (exists j: nat :: KeySpoilt(keys[0], v.members, j))
      || (exists j: nat :: KeyAt(keys[0], v.members, j) && PathFails(keys[1..], v.members[j].value))
  }

  lemma {:induction false} PathMeans(keys: seq<seq<byte>>, v: Value, text: seq<byte>)
    requires forall key | key in keys :: 0 !in key
    ensures AlongPath(keys, v) == Found(text) <==> PathFinds(keys, v, text)
    ensures AlongPath(keys, v) == Absent <==> PathMisses(keys, v)
    ensures AlongPath(keys, v) == Invalid <==> PathFails(keys, v)
    decreases |keys|
  {
    if keys != [] && v.Object? {
      hide KeyPassed, FirstMatch;
      var key, members := keys[0], v.members;
      forall j: nat | KeyAt(key, members, j) ensures FirstMatch(key, members) == At(members[j].value) {
        FirstMatchMeans(key, members, members[j].value);
      }
      FirstMatchMeans(key, members, v);
      if FirstMatch(key, members).At? {
        var w := FirstMatch(key, members).value;
        FirstMatchMeans(key, members, w);
        PathMeans(keys[1..], w, text);
      }
    }
  }

  /** The places of the three keys, each the first in its object, and the text they lead to. */
  ghost predicate ClsidAt(root: seq<Member>, j0: nat, j1: nat, j2: nat, text: seq<byte>) {
    && KeyAt(LAUNCHER, root, j0) && root[j0].value.Object?
    && var launcher := root[j0].value.members;
    && KeyAt(NOTIFICATION_REGISTRATION, launcher, j1) && launcher[j1].value.Object?
    && var registration := launcher[j1].value.members;
    && KeyAt(ACTIVATOR_CLSID, registration, j2) && registration[j2].value == Text(text)
    && text != [] && 0 !in text
  }

  /** The class id is found exactly at three such places; the other results are located likewise. */
  lemma ClsidMeans(root: seq<Member>, text: seq<byte>)
    ensures AlongPath(CLSID_PATH, Object(root)) == Found(text) <==> exists j0: nat, j1: nat, j2: nat :: ClsidAt(root, j0, j1, j2, text)
    ensures AlongPath(CLSID_PATH, Object(root)) == Absent
       <==> PathMisses([LAUNCHER, NOTIFICATION_REGISTRATION, ACTIVATOR_CLSID], Object(root))
    ensures AlongPath(CLSID_PATH, Object(root)) == Invalid
       <==> PathFails([LAUNCHER, NOTIFICATION_REGISTRATION, ACTIVATOR_CLSID], Object(root))
  {
    hide AlongPath, KeyAt, LAUNCHER, NOTIFICATION_REGISTRATION, ACTIVATOR_CLSID, PathMisses, PathFails, PathFinds, ClsidAt;
    PathKeysAreCStrings();
    PathMeans(CLSID_PATH, Object(root), text);
    if PathFinds(CLSID_PATH, Object(root), text) {
      var j0, j1, j2 := FoundPlaces(root, text);
    }
    if j0: nat, j1: nat, j2: nat :| ClsidAt(root, j0, j1, j2, text) {
      PlacesFound(root, j0, j1, j2, text);
    }
  }

  lemma PathTails()
    ensures CLSID_PATH[1..] == [NOTIFICATION_REGISTRATION, ACTIVATOR_CLSID]
    ensures CLSID_PATH[1..][1..] == [ACTIVATOR_CLSID] && CLSID_PATH[1..][1..][1..] == []
  {
  }

  lemma FoundPlaces(root: seq<Member>, text: seq<byte>) returns (j0: nat, j1: nat, j2: nat)
    requires PathFinds(CLSID_PATH, Object(root), text)
    ensures ClsidAt(root, j0, j1, j2, text)
  {
    hide LAUNCHER, NOTIFICATION_REGISTRATION, ACTIVATOR_CLSID, KeyPassed;
    PathTails();
    j0 :| KeyAt(LAUNCHER, root, j0) && PathFinds(CLSID_PATH[1..], root[j0].value, text);
    var launcher := root[j0].value.members;
    j1 :| KeyAt(NOTIFICATION_REGISTRATION, launcher, j1) && PathFinds(CLSID_PATH[1..][1..], launcher[j1].value, text);
    var registration := launcher[j1].value.members;
    j2 :| KeyAt(ACTIVATOR_CLSID, registration, j2) && PathFinds(CLSID_PATH[1..][1..][1..], registration[j2].value, text);
  }

  lemma PlacesFound(root: seq<Member>, j0: nat, j1: nat, j2: nat, text: seq<byte>)
    requires ClsidAt(root, j0, j1, j2, text)
    ensures PathFinds(CLSID_PATH, Object(root), text)
  {
    hide LAUNCHER, NOTIFICATION_REGISTRATION, ACTIVATOR_CLSID, KeyPassed;
    PathTails();
    var launcher := root[j0].value.members;
    var registration := launcher[j1].value.members;
    assert PathFinds(CLSID_PATH[1..][1..][1..], registration[j2].value, text);
    assert PathFinds(CLSID_PATH[1..][1..], launcher[j1].value, text);
    assert PathFinds(CLSID_PATH[1..], root[j0].value, text);
  }

  lemma PathKeysAreCStrings()
    ensures 0 !in LAUNCHER && 0 !in NOTIFICATION_REGISTRATION && 0 !in ACTIVATOR_CLSID
  {
  }

  // ------------------------------------------------------- the C getters

  method SlotIsEmptyScan(slot: seq<byte>) returns (empty: bool)
    requires |slot| == SLOT_SIZE
    ensures empty <==> SlotIsEmpty(slot)
  {
    if slot[..|EMPTY_MARKER|] != EMPTY_MARKER {
      return false;
    }
    for index := |EMPTY_MARKER| to SLOT_SIZE
      invariant forall i | |EMPTY_MARKER| <= i < index :: slot[i] == 0
    {
      if slot[index] != 0 {
        return false;
      }
    }
    return true;
  }

  method ReadRawKey(reader: Reader) returns (ok: bool, key: seq<byte>)
    requires reader.Valid()
    modifies reader`offset
    ensures reader.Valid()
    ensures match ReadKey(old(reader.Rest()))
            case Fail => !ok
            case Done(k, rest) => ok && key == k && reader.Rest() == rest
  {
    ok, key := reader.ReadCountedBytes();
    ok := ok && 0 !in key;
  }

  method ReadObjectValueCount(reader: Reader) returns (ok: bool, count: nat)
    requires reader.Valid()
    modifies reader`offset
    ensures reader.Valid()
    ensures match ReadHeader(old(reader.Rest()), 7, 2)
            case Fail => !ok
            case Done(n, rest) => ok && count == n && reader.Rest() == rest
  {
    if reader.offset >= |reader.bytes| {
      return false, 0;
    }
    var tag := reader.ReadByte();
    if tag != 7 {
      return false, 0;
    }
    ok, count := reader.ReadSizedCount(2);
  }

  method ReadStringValue(reader: Reader) returns (ok: bool, text: seq<byte>)
    requires reader.Valid()
    modifies reader`offset
    ensures reader.Valid()
    ensures match ReadCString(old(reader.Rest()))
            case Fail => !ok
            case Done(s, rest) => ok && text == s && reader.Rest() == rest
  {
    if reader.offset >= |reader.bytes| {
      return false, [];
    }
    var tag := reader.ReadByte();
    if tag != 4 {
      return false, [];
    }
    ok, text := ReadRawKey(reader);
  }

  /** The members of one launcher object; Miss leaves the cursor after the last of them. */
  method ReadLauncherString(reader: Reader, count: nat, key: LauncherKey) returns (result: Lookup)
    requires reader.Valid()
    modifies reader`offset
    ensures reader.Valid()
    ensures match ScanLauncher(key, old(reader.Rest()), count)
            case Bad => result == Invalid
            case Hit(text) => result == Found(text)
            case Miss(rest) => result == Absent && reader.Rest() == rest
  {
    hide ParseValue, ReadKey, ReadCString, LauncherKey.Name, LauncherKey.Accepts;
    ghost var goal := ScanLauncher(key, reader.Rest(), count);
    for index := 0 to count
      invariant reader.Valid()
      invariant ScanLauncher(key, reader.Rest(), count - index) == goal
    {
      var ok, k := ReadRawKey(reader);
      if !ok {
        return Invalid;
      }
      if k == key.Name() {
        var text;
        ok, text := ReadStringValue(reader);
        return if ok && key.Accepts(text) then Found(text) else Invalid;
      }
      ok := reader.SkipValue();
      if !ok {
        return Invalid;
      }
    }
    return Absent;
  }

  /** A launcher member's value; Absent leaves the cursor after it. */
  method ReadLauncherObject(reader: Reader, key: LauncherKey) returns (result: Lookup)
    requires reader.Valid()
    modifies reader`offset
    ensures reader.Valid()
    ensures match ReadHeader(old(reader.Rest()), 7, 2)
            case Fail => result == Invalid
            case Done(inner, body) =>
              match ScanLauncher(key, body, inner)
              case Bad => result == Invalid
              case Hit(text) => result == Found(text)
              case Miss(rest) => result == Absent && reader.Rest() == rest
  {
    hide ReadHeader, ScanLauncher;
    var ok, inner := ReadObjectValueCount(reader);
    if !ok {
      return Invalid;
    }
    result := ReadLauncherString(reader, inner, key);
  }

  method GetEmbeddedString(slot: seq<byte>, sizeMax: nat, key: LauncherKey) returns (result: Lookup)
    requires |slot| == SLOT_SIZE <= sizeMax < UINT64_LIMIT
    ensures result == StringInSlot(key, slot)
  {
    hide ParseValue, ReadKey, ReadHeader, ScanLauncher, ScanRoot, SlotIsEmpty, LauncherKey.Default, LAUNCHER;
    var empty := SlotIsEmptyScan(slot);
    if empty {
      return key.Default();
    }
    var reader := new Reader(slot, sizeMax);
    var ok, count := ReadObjectValueCount(reader);
    if !ok {
      return Invalid;
    }
    for index := 0 to count
      invariant reader.Valid() && fresh(reader)
      invariant ScanRoot(key, reader.Rest(), count - index) == StringInSlot(key, slot)
    {
      RootStep(key, reader.Rest(), count - index);
      var k;
      ok, k := ReadRawKey(reader);
      if !ok {
        return Invalid;
      }
      if k == LAUNCHER {
        result := ReadLauncherObject(reader, key);
        if result != Absent {
          return;
        }
      } else {
        ok := reader.SkipValue();
        if !ok {
          return Invalid;
        }
      }
    }
    RootStep(key, reader.Rest(), 0);
    return key.Default();
  }

  lemma RootStep(key: LauncherKey, s: seq<byte>, count: nat)
    ensures count == 0 ==> ScanRoot(key, s, count) == key.Default()
    ensures count > 0 ==>
      ScanRoot(key, s, count)
      == match ReadKey(s)
         case Fail => Invalid
         case Done(k, tail) =>
           if k == LAUNCHER then
             match ReadHeader(tail, 7, 2)
             case Fail => Invalid
             case Done(inner, body) =>
               match ScanLauncher(key, body, inner)
               case Bad => Invalid
               case Hit(text) => Found(text)
               case Miss(rest) => ScanRoot(key, rest, count - 1)
           else match ParseValue(tail, MAX_NESTING_DEPTH)
             case Fail => Invalid
             case Done(_, rest) => ScanRoot(key, rest, count - 1)
  {
  }

  /** One level of the class id's path: Hit when the cursor stands at the key's value. */
  method FindKey(reader: Reader, key: seq<byte>, count: nat) returns (ok: bool, found: bool)
    requires reader.Valid()
    modifies reader`offset
    ensures reader.Valid()
    ensures match ScanFor(key, old(reader.Rest()), count)
            case Bad => !ok
            case Hit(rest) => ok && found && reader.Rest() == rest
            case Miss(_) => ok && !found
  {
    hide ParseValue, ReadKey;
    ghost var goal := ScanFor(key, reader.Rest(), count);
    for index := 0 to count
      invariant reader.Valid()
      invariant ScanFor(key, reader.Rest(), count - index) == goal
    {
      var k;
      ok, k := ReadRawKey(reader);
      if !ok || k == key {
        return ok, ok;
      }
      ok := reader.SkipValue();
      if !ok {
        return false, false;
      }
    }
    return true, false;
  }

  method GetEmbeddedClsid(slot: seq<byte>, sizeMax: nat) returns (result: Lookup)
    requires |slot| == SLOT_SIZE <= sizeMax < UINT64_LIMIT
    ensures result == ClsidInSlot(slot)
  {
    var empty := SlotIsEmptyScan(slot);
    if empty {
      return Absent;
    }
    result := ReadAlongPath(slot, sizeMax, CLSID_PATH);
  }

  method ReadAlongPath(slot: seq<byte>, sizeMax: nat, keys: seq<seq<byte>>) returns (result: Lookup)
    requires |slot| == SLOT_SIZE <= sizeMax < UINT64_LIMIT
    ensures result == ScanPath(keys, slot)
  {
    hide ScanFor, ReadHeader, ReadCString;
    var reader := new Reader(slot, sizeMax);
    for depth := 0 to |keys|
      invariant reader.Valid() && fresh(reader)
      invariant ScanPath(keys[depth..], reader.Rest()) == ScanPath(keys, slot)
    {
      assert keys[depth..][0] == keys[depth] && keys[depth..][1..] == keys[depth + 1..];
      var ok, count := ReadObjectValueCount(reader);
      if !ok {
        return Invalid;
      }
      var found;
      ok, found := FindKey(reader, keys[depth], count);
      if !ok || !found {
        return if ok then Absent else Invalid;
      }
    }
    var ok, text := ReadStringValue(reader);
    return if ok && text != [] then Found(text) else Invalid;
  }
}
