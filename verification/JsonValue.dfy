/** Parsed JSON documents as the catalogs use them. */
module JsonValue {
  import opened Common
  import opened Text

  datatype Json =
    | JNull
    | JBool(b: bool)
    | JUnsigned(n: nat)
    | JOtherNumber
    | JString(s: string)
    | JArray(items: seq<Json>)
    | JObject(members: seq<(string, Json)>)

  /** The first member with the name. */
  function Member(members: seq<(string, Json)>, name: string): Option<Json> {
    if members == [] then None
    else if members[0].0 == name then Some(members[0].1)
    else Member(members[1..], name)
  }

  function Get(value: Json, name: string): Option<Json> {
    if value.JObject? then Member(value.members, name) else None
  }

  /** The text C code sees in a JSON string. */
  function GetText(value: Json, name: string): Option<string> {
    match Get(value, name)
    case Some(JString(s)) => Some(CText(s))
    case _ => None
  }

  // ------------------------------------------------------ members by position

  /** The pair stands at the place, and no earlier member has the name. */
  predicate FirstAt(members: seq<(string, Json)>, name: string, value: Json, i: nat) {
    i < |members| && members[i] == (name, value) && forall j | 0 <= j < i :: members[j].0 != name
  }

  ghost predicate HasMember(value: Json, name: string, member: Json) {
    value.JObject? && exists i: nat :: FirstAt(value.members, name, member, i)
  }

  /** The first member with the name is a string, and this is its text up to a zero. */
  ghost predicate HasText(value: Json, name: string, text: string) {
    exists s :: HasMember(value, name, JString(s)) && CText(s) == text
  }

  lemma FirstAtNext(members: seq<(string, Json)>, name: string, value: Json, i: nat)
    requires members != []
    ensures FirstAt(members, name, value, 0) <==> members[0] == (name, value)
    ensures FirstAt(members, name, value, i + 1) <==> members[0].0 != name && FirstAt(members[1..], name, value, i)
  {
    if FirstAt(members[1..], name, value, i) && members[0].0 != name {
      forall j | 0 <= j < i + 1 ensures members[j].0 != name {
        if j > 0 {
          assert members[1..][j - 1].0 != name;
        }
      }
    }
  }

  lemma {:induction false} MemberMeans(members: seq<(string, Json)>, name: string, value: Json)
    ensures Member(members, name) == Some(value) <==> exists i: nat :: FirstAt(members, name, value, i)
  {
    if members != [] {
      hide FirstAt;
      MemberMeans(members[1..], name, value);
      FirstAtNext(members, name, value, 0);
      if i: nat :| FirstAt(members[1..], name, value, i) {
        FirstAtNext(members, name, value, i);
      }
      if i: nat :| FirstAt(members, name, value, i) {
        if i > 0 {
          FirstAtNext(members, name, value, i - 1);
        }
      }
    }
  }

  lemma GetMeans(value: Json, name: string, member: Json)
    ensures Get(value, name) == Some(member) <==> HasMember(value, name, member)
  {
    if value.JObject? {
      MemberMeans(value.members, name, member);
    }
  }

  lemma GetTextMeans(value: Json, name: string, text: string)
    ensures GetText(value, name) == Some(text) <==> HasText(value, name, text)
  {
    hide Get, CText, HasMember;
    forall s ensures Get(value, name) == Some(JString(s)) <==> HasMember(value, name, JString(s)) {
      GetMeans(value, name, JString(s));
    }
  }
}
