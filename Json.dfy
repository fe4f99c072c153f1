/** The metadata documents: a JSON value tree, the lookup that reading a text
    into a `HashMap` and calling `get` performs, and the compact text that
    `new JSONObject(map).toString()` writes for the metadata column. */
module Json {
  import opened Wrappers
  import opened Strings

  datatype Json =
    | JNull
    | JBool(b: bool)
    | JNumber(n: int)
    | JString(s: string)
    | JArray(items: seq<Json>)
    | JObject(members: seq<Member>)

  /** One `"key": value` pair of an object, in document order. */
  datatype Member = Member(key: string, value: Json)

  /** `get(key)` on the map that an object reads into: the value of the last
      member named `key` (later bindings overwrite earlier ones), or none. */
  function Get(ms: seq<Member>, key: string): (r: Option<Json>)
    ensures r.None? <==> forall i | 0 <= i < |ms| :: ms[i].key != key
    ensures r.Some? ==> exists i | 0 <= i < |ms| :: ms[i] == Member(key, r.value) &&
                          forall j | i < j < |ms| :: ms[j].key != key
  {
    if ms == [] then None
    else if ms[|ms| - 1].key == key then Some(ms[|ms| - 1].value)
    else Get(ms[..|ms| - 1], key)
  }

  /** No two members of the object share a key. */
  predicate DistinctKeys(ms: seq<Member>) {
    forall i, j | 0 <= i < j < |ms| :: ms[i].key != ms[j].key
  }

  /** A document as the request body binds it: `ConfigDTO.metaData` is a
      `Map<String, Object>` that Jackson fills with `LinkedHashMap`s (a key
      read twice keeps one binding), so no object holds a key twice; and
      every integer it binds is an `Integer` or a `Long`. */
  predicate WellFormed(j: Json)
    decreases j
  {
    match j
    case JNumber(n) => -0x8000_0000_0000_0000 <= n < 0x8000_0000_0000_0000
    case JArray(items) => forall i | 0 <= i < |items| :: WellFormed(items[i])
    case JObject(ms) => DistinctKeys(ms) && forall i | 0 <= i < |ms| :: WellFormed(ms[i].value)
    case _ => true
  }

  /** With distinct keys, `get` returns the one member holding the key. */
  lemma {:induction false} GetDistinct(ms: seq<Member>, i: nat)
    requires DistinctKeys(ms) && i < |ms|
    ensures Get(ms, ms[i].key) == Some(ms[i].value)
  {
    if i < |ms| - 1 {
      GetDistinct(ms[..|ms| - 1], i);
    }
  }

  // ---------------------------------------------------------------------------
  // Serialization

  /** The characters the writer puts behind a backslash. */
  predicate NeedsEscape(c: char) {
    c == '"' || c == '\\' || c == '/' || c as int < 0x20
  }

  /** A string the writer copies unchanged. */
  predicate Plain(s: string) {
    forall i | 0 <= i < |s| :: !NeedsEscape(s[i])
  }

  function HexDigit(d: nat): char
    requires d < 16
  {
    "0123456789abcdef"[d]
  }

  function EscapeChar(c: char): (r: string)
    ensures |r| >= 1
    ensures NeedsEscape(c) <==> |r| >= 2
    ensures !NeedsEscape(c) ==> r == [c]
  {
    if c == '"' || c == '\\' || c == '/' then ['\\', c]
    else if c == '\t' then "\\t"
    else if c == '\n' then "\\n"
    else if c == '\r' then "\\r"
    else if c as int == 8 then "\\b"
    else if c as int == 12 then "\\f"
    else if c as int < 0x20 then "\\u00" + [HexDigit(c as int / 16), HexDigit(c as int % 16)]
    else [c]
  }

  function Escape(s: string): string {
    if s == [] then [] else EscapeChar(s[0]) + Escape(s[1..])
  }

  /** A string literal: the escaped text between double quotes. */
  function Quote(s: string): string {
    "\"" + Escape(s) + "\""
  }

  function Digit(d: nat): char
    requires d < 10
  {
    "0123456789"[d]
  }

  function NatToString(n: nat): string {
    if n < 10 then [Digit(n)] else NatToString(n / 10) + [Digit(n % 10)]
  }

  function IntToString(n: int): string {
    if n < 0 then "-" + NatToString(-n) else NatToString(n)
  }

  /** The compact text of a value: no whitespace, members in document order. */
  function Serialize(j: Json): string
    decreases j
  {
    match j
    case JNull => "null"
    case JBool(b) => if b then "true" else "false"
    case JNumber(n) => IntToString(n)
    case JString(s) => Quote(s)
    case JArray(items) => "[" + SerializeItems(items) + "]"
    case JObject(ms) => "{" + SerializeMembers(ms) + "}"
  }

  function SerializeItems(items: seq<Json>): string
    decreases items
  {
    if items == [] then ""
    else Serialize(items[0]) + (if |items| == 1 then "" else "," + SerializeItems(items[1..]))
  }

  function SerializeMember(m: Member): string
    decreases m
  {
    Quote(m.key) + ":" + Serialize(m.value)
  }

  function SerializeMembers(ms: seq<Member>): string
    decreases ms
  {
    if ms == [] then ""
    else SerializeMember(ms[0]) + (if |ms| == 1 then "" else "," + SerializeMembers(ms[1..]))
  }

  // ---------------------------------------------------------------------------
  // Properties of the text

  /** Escaping changes a string exactly when it holds a character that needs escaping. */
  lemma {:induction false} EscapeIdentity(s: string)
    ensures |Escape(s)| >= |s|
    ensures Escape(s) == s <==> Plain(s)
  {
    if s != [] {
      EscapeIdentity(s[1..]);
      assert Plain(s) <==> !NeedsEscape(s[0]) && Plain(s[1..]);
      if !NeedsEscape(s[0]) {
        assert Escape(s) == [s[0]] + Escape(s[1..]);
        assert s == [s[0]] + s[1..];
      } else {
        assert |Escape(s)| > |s|;
      }
    }
  }

  /** The first member's text starts the members' text. */
  lemma FirstMemberInMembers(ms: seq<Member>)
    requires ms != []
    ensures Contains(SerializeMembers(ms), SerializeMember(ms[0]))
  {
    var rest := if |ms| == 1 then "" else "," + SerializeMembers(ms[1..]);
    assert SerializeMembers(ms) == SerializeMember(ms[0]) + rest;
    ContainsPrefix(SerializeMember(ms[0]), rest);
  }

  /** The text of the later members ends the members' text. */
  lemma LaterMembersInMembers(ms: seq<Member>)
    requires |ms| > 1
    ensures Contains(SerializeMembers(ms), SerializeMembers(ms[1..]))
  {
    var first, later := SerializeMember(ms[0]), SerializeMembers(ms[1..]);
    assert SerializeMembers(ms) == first + ("," + later);
    assert first + ("," + later) == (first + ",") + later;
    ContainsSuffix(first + ",", later);
  }

  /** Every member's text is a substring of the members' text. */
  lemma {:induction false} MemberInMembers(ms: seq<Member>, i: nat)
    requires i < |ms|
    ensures Contains(SerializeMembers(ms), SerializeMember(ms[i]))
  {
    if i == 0 {
      FirstMemberInMembers(ms);
    } else {
      MemberInMembers(ms[1..], i - 1);
      LaterMembersInMembers(ms);
      ContainsTransitive(SerializeMembers(ms), SerializeMembers(ms[1..]), SerializeMember(ms[i]));
    }
  }

  /** Every member's text is a substring of the object's text. */
  lemma MemberInObject(ms: seq<Member>, i: nat)
    requires i < |ms|
    ensures Contains(Serialize(JObject(ms)), SerializeMember(ms[i]))
  {
    MemberInMembers(ms, i);
    ContainsMiddle("{", SerializeMembers(ms), "}");
    ContainsTransitive(Serialize(JObject(ms)), SerializeMembers(ms), SerializeMember(ms[i]));
  }

  /** The text of a member's value is a substring of the object's text. */
  lemma ValueInObject(ms: seq<Member>, i: nat)
    requires i < |ms|
    ensures Contains(Serialize(JObject(ms)), Serialize(ms[i].value))
  {
    var member := SerializeMember(ms[i]);
    MemberInObject(ms, i);
    ContainsMiddle(Quote(ms[i].key) + ":", Serialize(ms[i].value), "");
    assert Quote(ms[i].key) + ":" + Serialize(ms[i].value) + "" == member;
    ContainsTransitive(Serialize(JObject(ms)), member, Serialize(ms[i].value));
  }

  /** The quoted key of a member is a substring of the object's text. */
  lemma QuotedKeyInObject(ms: seq<Member>, i: nat)
    requires i < |ms|
    ensures Contains(Serialize(JObject(ms)), Quote(ms[i].key))
  {
    MemberInObject(ms, i);
    QuotedKeyInMember(ms[i]);
    ContainsTransitive(Serialize(JObject(ms)), SerializeMember(ms[i]), Quote(ms[i].key));
  }

  lemma QuotedKeyInMember(m: Member)
    ensures Contains(SerializeMember(m), Quote(m.key))
  {
    var after := ":" + Serialize(m.value);
    ContainsMiddle("", Quote(m.key), after);
    assert "" + Quote(m.key) + after == SerializeMember(m);
  }

  /** A string the writer leaves unchanged is a substring of its quoted form. */
  lemma PlainInQuote(s: string)
    requires Plain(s)
    ensures Contains(Quote(s), s)
  {
    EscapeIdentity(s);
    ContainsMiddle("\"", s, "\"");
  }

  /** Every key of an object appears quoted in the object's text, and so,
      if the writer leaves it unchanged, literally. */
  lemma KeyInObject(ms: seq<Member>, key: string)
    requires Get(ms, key).Some?
    ensures Contains(Serialize(JObject(ms)), Quote(key))
    ensures Plain(key) ==> Contains(Serialize(JObject(ms)), key)
  {
    var i :| 0 <= i < |ms| && ms[i].key == key;
    QuotedKeyInObject(ms, i);
    if Plain(key) {
      PlainInQuote(key);
      ContainsTransitive(Serialize(JObject(ms)), Quote(key), key);
    }
  }

  // ---------------------------------------------------------------------------
  // Slashes

  /** Every `/` in `s` comes right after a backslash. */
  predicate SlashesEscaped(s: string) {
    forall i | 0 <= i < |s| && s[i] == '/' :: 0 < i && s[i - 1] == '\\'
  }

  lemma SlashesEscapedConcat(a: string, b: string)
    requires SlashesEscaped(a) && SlashesEscaped(b)
    ensures SlashesEscaped(a + b)
  {
    var s := a + b;
    forall i | 0 <= i < |s| && s[i] == '/'
      ensures 0 < i && s[i - 1] == '\\'
    {
      if i < |a| {
        assert a[i] == '/';
      } else {
        assert b[i - |a|] == '/';
      }
    }
  }

  lemma {:induction false} EscapeSlashes(s: string)
    ensures SlashesEscaped(Escape(s))
  {
    if s != [] {
      EscapeSlashes(s[1..]);
      var c := s[0];
      assert SlashesEscaped(EscapeChar(c)) by {
        if !(c == '"' || c == '\\' || c == '/') && c as int < 0x20 && !(c == '\t' || c == '\n' || c == '\r' || c as int == 8 || c as int == 12) {
          var hex := [HexDigit(c as int / 16), HexDigit(c as int % 16)];
          assert '/' !in hex;
        }
      }
      SlashesEscapedConcat(EscapeChar(c), Escape(s[1..]));
    }
  }

  lemma {:induction false} NatToStringSlashes(n: nat)
    ensures '/' !in NatToString(n)
  {
    if n >= 10 {
      NatToStringSlashes(n / 10);
    }
  }

  /** The writer never leaves a `/` unescaped. */
  lemma {:induction false} SerializeSlashes(j: Json)
    ensures SlashesEscaped(Serialize(j))
    decreases j, 1
  {
    match j
    case JNull =>
    case JBool(b) =>
    case JNumber(n) =>
      NatToStringSlashes(if n < 0 then -n else n);
    case JString(s) =>
      EscapeSlashes(s);
      SlashesEscapedConcat("\"", Escape(s));
      SlashesEscapedConcat("\"" + Escape(s), "\"");
    case JArray(items) =>
      SerializeItemsSlashes(items);
      SlashesEscapedConcat("[", SerializeItems(items));
      SlashesEscapedConcat("[" + SerializeItems(items), "]");
    case JObject(ms) =>
      SerializeMembersSlashes(ms);
      SlashesEscapedConcat("{", SerializeMembers(ms));
      SlashesEscapedConcat("{" + SerializeMembers(ms), "}");
  }

  lemma {:induction false} SerializeItemsSlashes(items: seq<Json>)
    ensures SlashesEscaped(SerializeItems(items))
    decreases items, 0
  {
    if items != [] {
      SerializeSlashes(items[0]);
      if |items| > 1 {
        SerializeItemsSlashes(items[1..]);
        SlashesEscapedConcat(",", SerializeItems(items[1..]));
        SlashesEscapedConcat(Serialize(items[0]), "," + SerializeItems(items[1..]));
      } else {
        assert SerializeItems(items) == Serialize(items[0]) + "";
      }
    }
  }

  lemma {:induction false} SerializeMembersSlashes(ms: seq<Member>)
    ensures SlashesEscaped(SerializeMembers(ms))
    decreases ms, 0
  {
    if ms != [] {
      var m := ms[0];
      assert SlashesEscaped(SerializeMember(m)) by {
        EscapeSlashes(m.key);
        SlashesEscapedConcat("\"", Escape(m.key));
        SlashesEscapedConcat("\"" + Escape(m.key), "\"");
        SlashesEscapedConcat(Quote(m.key), ":");
        SerializeSlashes(m.value);
        SlashesEscapedConcat(Quote(m.key) + ":", Serialize(m.value));
      }
      if |ms| > 1 {
        SerializeMembersSlashes(ms[1..]);
        SlashesEscapedConcat(",", SerializeMembers(ms[1..]));
        SlashesEscapedConcat(SerializeMember(m), "," + SerializeMembers(ms[1..]));
      } else {
        assert SerializeMembers(ms) == SerializeMember(m) + "";
      }
    }
  }

  /** A text whose slashes are all escaped does not contain a string with a
      slash that follows another character than a backslash. */
  lemma UnescapedSlashNotContained(text: string, s: string, p: nat)
    requires SlashesEscaped(text)
    requires 0 < p < |s| && s[p] == '/' && s[p - 1] != '\\'
    ensures !Contains(text, s)
  {
  }
}
