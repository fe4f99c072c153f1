/** The three rows the controller tests store, and what the model says about
    the requests the tests send against them. */
module Fixtures {
  import opened Wrappers
  import opened Strings
  import opened Seqs
  import opened Json
  import opened Repository
  import opened QueryEvaluator

  /** `{"monitoring":{"enabled":m},"limits":{"cpu":{"enabled":e,"value":v}}}` */
  function Metadata(monitoring: string, cpuEnabled: string, cpuValue: string): seq<Member> {
    [ Member("monitoring", JObject([Member("enabled", JString(monitoring))])),
      Member("limits", JObject([Member("cpu", JObject([Member("enabled", JString(cpuEnabled)),
                                                        Member("value", JString(cpuValue))]))])) ]
  }

  function DataSrc(): Config  { Config("data-src",  Metadata("true", "false", "300m")) }
  function DataSrc2(): Config { Config("data-src2", Metadata("false", "true", "300m")) }
  function DataSrc3(): Config { Config("data-src3", Metadata("true", "true", "250m")) }

  function Rows(): Table { [DataSrc(), DataSrc2(), DataSrc3()] }

  /** A key of an object nested at the top level occurs in the row's text when
      the writer copies it unchanged. */
  lemma NestedKeyInText(c: Config, i: nat, key: string)
    requires i < |c.metaData| && c.metaData[i].value.JObject?
    requires Get(c.metaData[i].value.members, key).Some? && Plain(key)
    ensures Contains(MetaDataText(c), key)
  {
    var inner := c.metaData[i].value.members;
    KeyInObject(inner, key);
    ValueInObject(c.metaData, i);
    ContainsTransitive(MetaDataText(c), Serialize(JObject(inner)), key);
  }

  /** Every fixture row has `monitoring` as a top-level key and `cpu` nested
      under `limits`, so both words occur in its text. */
  lemma FixtureTextContains(c: Config, segment: string)
    requires c in Rows()
    requires segment == "monitoring" || segment == "cpu"
    ensures Contains(MetaDataText(c), segment)
  {
    assert Plain(segment);
    if segment == "monitoring" {
      assert Get(c.metaData, segment).Some?;
      KeyInObject(c.metaData, segment);
    } else {
      assert Get(c.metaData[1].value.members, segment).Some?;
      NestedKeyInText(c, 1, segment);
    }
  }

  /** Every fixture row is a candidate for either segment.
      The segment is a parameter fixed by `requires` rather than a literal
      so that the verifier does not evaluate the split and the writer on it. */
  lemma CandidatesAreAllRows(segment: string)
    requires segment == "monitoring" || segment == "cpu"
    ensures FindByMetaDataContains(Rows(), segment) == Rows()
  {
    forall i | 0 <= i < |Rows()|
      ensures Contains(MetaDataText(Rows()[i]), segment)
    {
      FixtureTextContains(Rows()[i], segment);
    }
  }

  /** The check of `monitoring.enabled == "true"` on each fixture row: the
      first and third pass, the second does not, none throws. */
  lemma MonitoringChecks(q: Query)
    requires q == Query("monitoring", "enabled", "true")
    ensures Evaluate(DataSrc(), q) == Success(true)
    ensures Evaluate(DataSrc2(), q) == Success(false)
    ensures Evaluate(DataSrc3(), q) == Success(true)
  {
    assert Get(DataSrc().metaData, "monitoring") == Some(JObject([Member("enabled", JString("true"))]));
    assert Get(DataSrc2().metaData, "monitoring") == Some(JObject([Member("enabled", JString("false"))]));
    assert Get(DataSrc3().metaData, "monitoring") == Some(JObject([Member("enabled", JString("true"))]));
  }

  /** The key of a request, `metadata.<segment>.<field>`, parses to the query
      on `segment` and `field`. */
  lemma RequestParses(segment: string, field: string, value: string)
    requires '.' !in segment && '.' !in field && field != ""
    ensures ParseQuery([Param("metadata." + segment + "." + field, value)]) == Success(Query(segment, field, value))
  {
    assert '.' !in "metadata";
    assert "metadata" + "." + segment + "." + field + "" == "metadata." + segment + "." + field;
    ParseQueryUsesSecondAndThirdPart("metadata", segment, field, "", value, []);
    assert [Param("metadata." + segment + "." + field, value)] + [] == [Param("metadata." + segment + "." + field, value)];
  }

  /** Three checks that pass, fail and pass keep the first and the third candidate. */
  lemma {:induction false} KeepFirstAndThird(a: Config, b: Config, c: Config, q: Query)
    requires Evaluate(a, q) == Success(true)
    requires Evaluate(b, q) == Success(false)
    requires Evaluate(c, q) == Success(true)
    ensures RunChecks([a, b, c], q) == Success([a, c])
  {
    assert RunChecks([], q) == Success([]);
    RunChecksStep([], a, q);
    assert [] + [a] == [a];
    RunChecksStep([a], b, q);
    assert [a] + [b] == [a, b];
    assert RunChecks([a, b], q) == Success([a]);
    RunChecksStep([a, b], c, q);
    assert [a, b] + [c] == [a, b, c];
    assert [a] + [c] == [a, c];
  }

  /** A search whose query parses, whose candidates are the whole table and
      whose checks keep `r` returns `r`. */
  lemma SearchOverAllRows(t: Table, params: seq<Param>, q: Query)
    requires ParseQuery(params) == Success(q)
    requires FindByMetaDataContains(t, q.segment) == t
    ensures Search(t, params) == RunChecks(t, q)
  {
  }

  /** `GET /search?metadata.monitoring.enabled=true` returns `data-src` and
      `data-src3`: two rows, as the search test expects.
      The segment is a parameter fixed by `requires` rather than a literal
      so that the verifier does not evaluate the split and the writer on it. */
  lemma SearchMonitoringEnabled(segment: string)
    requires segment == "monitoring"
    ensures Search(Rows(), [Param("metadata." + segment + "." + "enabled", "true")]) == Success([DataSrc(), DataSrc3()])
  {
    var q := Query(segment, "enabled", "true");
    assert '.' !in segment && '.' !in "enabled";
    RequestParses(segment, "enabled", "true");
    CandidatesAreAllRows(segment);
    MonitoringChecks(q);
    KeepFirstAndThird(DataSrc(), DataSrc2(), DataSrc3(), q);
    SearchOverAllRows(Rows(), [Param("metadata." + segment + "." + "enabled", "true")], q);
  }

  /** `GET /search?metadata.cpu.enabled=true`: `cpu` occurs in every row's text,
      but only nested under `limits`, so the first candidate has no top-level
      `cpu` and the search ends with a null pointer exception.
      The segment is a parameter fixed by `requires` rather than a literal
      so that the verifier does not evaluate the split and the writer on it. */
  lemma SearchNestedSegmentThrows(segment: string)
    requires segment == "cpu"
    ensures Search(Rows(), [Param("metadata." + segment + "." + "enabled", "true")]) == Failure(NullPointer)
  {
    var q := Query(segment, "enabled", "true");
    assert '.' !in segment && '.' !in "enabled";
    RequestParses(segment, "enabled", "true");
    CandidatesAreAllRows(segment);
    assert Evaluate(DataSrc(), q) == Failure(NullPointer);
    RunChecksFailure(Rows(), 0, q);
    SearchOverAllRows(Rows(), [Param("metadata." + segment + "." + "enabled", "true")], q);
  }

  /** A row whose top-level key holds a slash, `{"a/b":{"x":"y"}}`. */
  function SlashRow(): Config {
    Config("routes", [Member("a/b", JObject([Member("x", JString("y"))]))])
  }

  /** `GET /search?metadata.a/b.x=y` finds nothing, although the row holds the
      string `y` at that path: its text has `a\/b` where the pre-filter looks for `a/b`.
      The segment is a parameter fixed by `requires` rather than a literal
      so that the verifier does not evaluate the split and the writer on it. */
  lemma SlashSegmentMissed(segment: string)
    requires segment == "a/b"
    ensures At(SlashRow(), segment, "x") == Some(JString("y"))
    ensures Search([SlashRow()], [Param("metadata." + segment + "." + "x", "y")]) == Success([])
  {
    assert '.' !in segment && '.' !in "x";
    RequestParses(segment, "x", "y");
    SearchMissesSlashSegment([SlashRow()], [Param("metadata." + segment + "." + "x", "y")], 1);
  }

  /** A string the writer leaves unchanged is quoted as it is. */
  lemma QuotePlain(s: string)
    requires Plain(s)
    ensures Quote(s) == "\"" + s + "\""
  {
    EscapeIdentity(s);
  }

  /** The text of a string value the writer leaves unchanged. */
  lemma PlainStringText(s: string)
    requires Plain(s)
    ensures Serialize(JString(s)) == "\"" + s + "\""
  {
    QuotePlain(s);
  }

  /** The text of a member whose key needs no escaping. */
  lemma MemberText(k: string, v: Json)
    requires Plain(k)
    ensures SerializeMember(Member(k, v)) == "\"" + k + "\":" + Serialize(v)
  {
    QuotePlain(k);
    var open := "\"" + k;
    assert open + "\"" + ":" == open + "\":";
  }

  /** The text of an object with one member whose key needs no escaping. */
  lemma ObjectOfOne(k: string, v: Json)
    requires Plain(k)
    ensures Serialize(JObject([Member(k, v)])) == "{\"" + k + "\":" + Serialize(v) + "}"
  {
    MemberText(k, v);
    assert SerializeMembers([Member(k, v)]) == SerializeMember(Member(k, v));
  }

  /** Two members are written with a comma between them. */
  lemma MembersOfTwo(m1: Member, m2: Member)
    ensures SerializeMembers([m1, m2]) == SerializeMember(m1) + "," + SerializeMember(m2)
  {
    assert [m1, m2][1..] == [m2];
  }

  /** The text of an object with two members whose keys need no escaping. */
  lemma ObjectOfTwo(k1: string, v1: Json, k2: string, v2: Json)
    requires Plain(k1) && Plain(k2)
    ensures Serialize(JObject([Member(k1, v1), Member(k2, v2)]))
         == "{" + ("\"" + k1 + "\":" + Serialize(v1)) + "," + ("\"" + k2 + "\":" + Serialize(v2)) + "}"
  {
    MemberText(k1, v1);
    MemberText(k2, v2);
    MembersOfTwo(Member(k1, v1), Member(k2, v2));
  }

  /** The text of the fixtures' `monitoring` object. */
  lemma MonitoringText(monitoring: string)
    requires Plain(monitoring)
    ensures Serialize(JObject([Member("enabled", JString(monitoring))])) == "{\"enabled\":\"" + monitoring + "\"}"
  {
    assert "{\"" + "enabled" + "\":" + ("\"" + monitoring + "\"") + "}" == "{\"enabled\":\"" + monitoring + "\"}";
    assert Plain("enabled");
    PlainStringText(monitoring);
    ObjectOfOne("enabled", JString(monitoring));
  }

  /** The text of the fixtures' `cpu` object. */
  lemma CpuText(cpuEnabled: string, cpuValue: string)
    requires Plain(cpuEnabled) && Plain(cpuValue)
    ensures Serialize(JObject([Member("enabled", JString(cpuEnabled)), Member("value", JString(cpuValue))]))
         == "{\"enabled\":\"" + cpuEnabled + "\",\"value\":\"" + cpuValue + "\"}"
  {
    assert "{" + ("\"" + "enabled" + "\":" + ("\"" + cpuEnabled + "\"")) + "," + ("\"" + "value" + "\":" + ("\"" + cpuValue + "\"")) + "}"
        == "{\"enabled\":\"" + cpuEnabled + "\",\"value\":\"" + cpuValue + "\"}";
    assert Plain("enabled") && Plain("value");
    PlainStringText(cpuEnabled);
    PlainStringText(cpuValue);
    ObjectOfTwo("enabled", JString(cpuEnabled), "value", JString(cpuValue));
  }

  /** The text of the fixtures' `limits` object around a `cpu` object. */
  lemma LimitsText(cpu: Json)
    ensures Serialize(JObject([Member("cpu", cpu)])) == "{\"cpu\":" + Serialize(cpu) + "}"
  {
    assert "{\"" + "cpu" + "\":" + Serialize(cpu) + "}" == "{\"cpu\":" + Serialize(cpu) + "}";
    assert Plain("cpu");
    ObjectOfOne("cpu", cpu);
  }

  /** The text of a fixture-shaped document around its two objects. The keys
      are parameters fixed by `requires` so that the verifier does not expand
      their literal text. */
  lemma TopText(top: string, second: string, monitoring: Json, limits: Json)
    requires top == "monitoring" && second == "limits"
    ensures Serialize(JObject([Member(top, monitoring), Member(second, limits)]))
         == "{\"monitoring\":" + Serialize(monitoring) + ",\"limits\":" + Serialize(limits) + "}"
  {
    TopRegrouped(top, second, Serialize(monitoring), Serialize(limits));
    assert Plain(top) && Plain(second);
    ObjectOfTwo(top, monitoring, second, limits);
  }

  /** The writer's pieces of the fixture document joined as the tests write
      it. Proved apart from `TopText`: with the writer's definitions in scope
      the same step costs the verifier several times as much. */
  lemma TopRegrouped(top: string, second: string, m: string, l: string)
    requires top == "monitoring" && second == "limits"
    ensures "{" + ("\"" + top + "\":" + m) + "," + ("\"" + second + "\":" + l) + "}"
         == "{\"monitoring\":" + m + ",\"limits\":" + l + "}"
  {
  }

  /** The text the metadata column holds for a fixture-shaped document whose
      strings need no escaping: the compact form the controller tests compare
      with, for instance the create test's `DEFAULT_CONFIG_METADATA` (the
      parentheses only group the text by object). */
  lemma MetadataText(name: string, monitoring: string, cpuEnabled: string, cpuValue: string)
    requires Plain(monitoring) && Plain(cpuEnabled) && Plain(cpuValue)
    ensures MetaDataText(Config(name, Metadata(monitoring, cpuEnabled, cpuValue)))
         == "{\"monitoring\":" + ("{\"enabled\":\"" + monitoring + "\"}")
            + ",\"limits\":" + ("{\"cpu\":" + ("{\"enabled\":\"" + cpuEnabled + "\",\"value\":\"" + cpuValue + "\"}") + "}")
            + "}"
  {
    var ms := Metadata(monitoring, cpuEnabled, cpuValue);
    TopText("monitoring", "limits", ms[0].value, ms[1].value);
    MonitoringText(monitoring);
    CpuText(cpuEnabled, cpuValue);
    LimitsText(ms[1].value.members[0].value);
  }
}
