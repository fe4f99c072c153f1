/** What `searchConfigs` computes: the query taken from the first request
    parameter, the per-candidate check, and the pass over the candidates that
    `findByMetaDataContains` returns, with the exceptions the Java code lets
    escape. */
module QueryEvaluator {
  import opened Wrappers
  import opened Strings
  import opened Seqs
  import opened Json
  import opened Repository

  /** One request parameter, in the order the request lists them. */
  datatype Param = Param(key: string, value: string)

  /** The one predicate a search evaluates: `metadata[segment][field]` equals `value`. */
  datatype Query = Query(segment: string, field: string, value: string)

  /** The exceptions a search raises; none of them is caught. */
  datatype SearchError =
    | NoSuchElement     // no parameter at all: `iterator().next()` on an empty map
    | IndexOutOfBounds  // the key splits into fewer than three parts
    | NullPointer       // the segment or the field is absent or bound to JSON null
    | ClassCast         // the segment is bound to something other than an object

  /** The query from the first parameter: its key split on dots gives the
      segment (second part) and the field (third part); the value is compared. */
  function ParseQuery(params: seq<Param>): Result<Query, SearchError> {
    if params == [] then Failure(NoSuchElement)
    else
      var path := Split(params[0].key, '.');
      if |path| < 3 then Failure(IndexOutOfBounds)
      else Success(Query(path[1], path[2], params[0].value))
  }

  /** A key `root.segment.field` (possibly with more dot-separated parts after
      it) in the first parameter gives the query on `segment` and `field`,
      whatever the root, the further parts and the further parameters are.
      Empty parts are accepted: the field may be empty as long as a later part
      is not, so that the split keeps it. */
  lemma ParseQueryUsesSecondAndThirdPart(root: string, segment: string, field: string, rest: string,
                                         value: string, more: seq<Param>)
    requires '.' !in root && '.' !in segment && '.' !in field
    requires rest == [] || rest[0] == '.'
    requires field != "" || exists i | 0 <= i < |rest| :: rest[i] != '.'
    ensures ParseQuery([Param(root + "." + segment + "." + field + rest, value)] + more)
         == Success(Query(segment, field, value))
  {
    SplitThreeParts(root, segment, field, rest, '.');
  }

  /** A key `root.segment.` followed by nothing but dots raises the index
      error: the split drops the empty field and the empty parts after it. */
  lemma ParseQueryDropsEmptyField(root: string, segment: string, rest: string, value: string, more: seq<Param>)
    requires '.' !in root && '.' !in segment
    requires forall i | 0 <= i < |rest| :: rest[i] == '.'
    ensures ParseQuery([Param(root + "." + segment + "." + rest, value)] + more) == Failure(IndexOutOfBounds)
  {
    SplitDropsEmptyField(root, segment, rest, '.');
  }

  /** A key with fewer than two dots raises the index error. */
  lemma ParseQueryTooFewParts(key: string, value: string, more: seq<Param>)
    requires Occurrences(key, '.') < 2
    ensures ParseQuery([Param(key, value)] + more) == Failure(IndexOutOfBounds)
  {
  }

  /** `metadata[segment][field]` navigated cleanly: the value there, if the
      segment is an object that has the field. */
  function At(c: Config, segment: string, field: string): Option<Json> {
    match Get(c.metaData, segment)
    case Some(JObject(inner)) => Get(inner, field)
    case _ => None
  }

  /** The check on one candidate: read its metadata into a map, cast the value
      of `segment` to a map, and test `get(field).equals(value)`. Only a JSON
      string can equal the String value. */
  function Evaluate(c: Config, q: Query): Result<bool, SearchError> {
    match Get(c.metaData, q.segment)
    case None => Failure(NullPointer)
    case Some(JNull) => Failure(NullPointer)
    case Some(JObject(inner)) =>
      (match Get(inner, q.field)
       case None => Failure(NullPointer)
       case Some(JNull) => Failure(NullPointer)
       case Some(v) => Success(v == JString(q.value)))
    case Some(_) => Failure(ClassCast)
  }

  /** A candidate passes exactly when the value at the path is the string
      `value`; the check throws exactly when the path breaks off before the
      field, or the field holds null. */
  lemma EvaluateMeaning(c: Config, q: Query)
    ensures Evaluate(c, q) == Success(true) <==> At(c, q.segment, q.field) == Some(JString(q.value))
    ensures Evaluate(c, q).Failure? <==> At(c, q.segment, q.field) in {None, Some(JNull)}
  {
  }

  /** The candidates in order, each checked; the first check that throws ends
      the search with its exception. */
  function RunChecks(cs: seq<Config>, q: Query): Result<seq<Config>, SearchError>
    decreases |cs|
  {
    if cs == [] then Success([])
    else
      match RunChecks(cs[..|cs| - 1], q)
      case Failure(e) => Failure(e)
      case Success(kept) =>
        var c := cs[|cs| - 1];
        match Evaluate(c, q)
        case Failure(e) => Failure(e)
        case Success(pass) => Success(if pass then kept + [c] else kept)
  }

  /** Whether `c` passes the check of `q`. */
  predicate Passes(q: Query, c: Config) {
    Evaluate(c, q) == Success(true)
  }

  /** The check of `q` as a predicate on candidates. */
  function Passing(q: Query): Config -> bool {
    c => Passes(q, c)
  }

  /** Once the checks of a prefix have thrown, the whole pass has thrown the same. */
  lemma {:induction false} RunChecksFailureSticks(cs: seq<Config>, i: nat, q: Query)
    requires i <= |cs|
    requires RunChecks(cs[..i], q).Failure?
    ensures RunChecks(cs, q) == RunChecks(cs[..i], q)
    decreases |cs| - i
  {
    if i < |cs| {
      assert cs[..i + 1][..i] == cs[..i];
      RunChecksFailureSticks(cs, i + 1, q);
    } else {
      assert cs[..i] == cs;
    }
  }

  /** One more candidate whose check does not throw: the pass kept so far, plus the candidate if it passes. */
  lemma RunChecksStep(init: seq<Config>, c: Config, q: Query)
    requires RunChecks(init, q).Success? && Evaluate(c, q).Success?
    ensures RunChecks(init + [c], q)
         == Success(RunChecks(init, q).value + (if Passes(q, c) then [c] else []))
  {
    var cs := init + [c];
    assert cs != [] && cs[..|cs| - 1] == init && cs[|cs| - 1] == c;
    var kept := RunChecks(init, q).value;
    assert Evaluate(c, q) == Success(Passes(q, c));
    assert RunChecks(cs, q) == Success(if Passes(q, c) then kept + [c] else kept);
    assert kept + [] == kept;
  }

  /** When no check throws, the pass keeps exactly the passing candidates, in order. */
  lemma {:induction false} RunChecksSuccess(cs: seq<Config>, q: Query)
    requires forall i | 0 <= i < |cs| :: Evaluate(cs[i], q).Success?
    ensures RunChecks(cs, q) == Success(Filter(cs, Passing(q)))
    decreases |cs|
  {
    if cs != [] {
      var p := Passing(q);
      var init, c := cs[..|cs| - 1], cs[|cs| - 1];
      assert init + [c] == cs;
      assert forall i | 0 <= i < |init| :: init[i] == cs[i];
      RunChecksSuccess(init, q);
      RunChecksStep(init, c, q);
      FilterSnoc(init, c, p);
      assert p(c) == Passes(q, c);
    }
  }

  /** A check that throws after a pass that did not ends the pass with its exception. */
  lemma RunChecksLastFails(init: seq<Config>, c: Config, q: Query)
    requires RunChecks(init, q).Success? && Evaluate(c, q).Failure?
    ensures RunChecks(init + [c], q) == Failure(Evaluate(c, q).error)
  {
    var cs := init + [c];
    assert cs != [] && cs[..|cs| - 1] == init && cs[|cs| - 1] == c;
  }

  /** When no check throws, neither does the pass. */
  lemma {:induction false} RunChecksSucceeds(cs: seq<Config>, q: Query)
    requires forall i | 0 <= i < |cs| :: Evaluate(cs[i], q).Success?
    ensures RunChecks(cs, q).Success?
    decreases |cs|
  {
    if cs != [] {
      var init := cs[..|cs| - 1];
      assert forall i | 0 <= i < |init| :: init[i] == cs[i];
      RunChecksSucceeds(init, q);
    }
  }

  /** When some check throws, the pass throws the exception of the first one. */
  lemma RunChecksFailure(cs: seq<Config>, k: nat, q: Query)
    requires k < |cs| && Evaluate(cs[k], q).Failure?
    requires forall i | 0 <= i < k :: Evaluate(cs[i], q).Success?
    ensures RunChecks(cs, q) == Failure(Evaluate(cs[k], q).error)
  {
    RunChecksPrefixSucceeds(cs, k, q);
    RunChecksLastFails(cs[..k], cs[k], q);
    assert cs[..k + 1] == cs[..k] + [cs[k]];
    RunChecksFailureSticks(cs, k + 1, q);
  }

  lemma RunChecksPrefixSucceeds(cs: seq<Config>, k: nat, q: Query)
    requires k <= |cs|
    requires forall i | 0 <= i < k :: Evaluate(cs[i], q).Success?
    ensures RunChecks(cs[..k], q).Success?
  {
    var init := cs[..k];
    assert forall i | 0 <= i < |init| :: init[i] == cs[i];
    RunChecksSucceeds(init, q);
  }

  /** Some check throws, so there is a first one that does. */
  lemma {:induction false} FirstFailingCheck(cs: seq<Config>, q: Query) returns (k: nat)
    requires !forall i | 0 <= i < |cs| :: Evaluate(cs[i], q).Success?
    ensures k < |cs| && Evaluate(cs[k], q).Failure?
    ensures forall i | 0 <= i < k :: Evaluate(cs[i], q).Success?
  {
    if Evaluate(cs[0], q).Failure? {
      k := 0;
    } else {
      var j :| 0 <= j < |cs| && !Evaluate(cs[j], q).Success?;
      assert cs[1..][j - 1] == cs[j];
      var k' := FirstFailingCheck(cs[1..], q);
      k := k' + 1;
      forall i | 0 < i < k
        ensures Evaluate(cs[i], q).Success?
      {
        assert cs[i] == cs[1..][i - 1];
      }
    }
  }

  /** `searchConfigs(params)`: parse the query, fetch the candidates whose text
      contains the segment, run the checks. */
  function Search(t: Table, params: seq<Param>): Result<seq<Config>, SearchError> {
    match ParseQuery(params)
    case Failure(e) => Failure(e)
    case Success(q) => RunChecks(FindByMetaDataContains(t, q.segment), q)
  }

  /** A successful search returns, in table order, candidates of the pre-filter
      whose value at the path is the requested string; it misses none of the
      rows that have that value, provided the segment is written unescaped. */
  lemma SearchResult(t: Table, params: seq<Param>, q: Query, r: seq<Config>)
    requires ParseQuery(params) == Success(q)
    requires Search(t, params) == Success(r)
    ensures IsSubsequence(r, FindByMetaDataContains(t, q.segment))
    ensures IsSubsequence(r, t)
    ensures forall c | c in r :: c in t && At(c, q.segment, q.field) == Some(JString(q.value))
    ensures Plain(q.segment) ==>
              forall c | c in t && At(c, q.segment, q.field) == Some(JString(q.value)) :: c in r
  {
    var cs := FindByMetaDataContains(t, q.segment);
    if !forall i | 0 <= i < |cs| :: Evaluate(cs[i], q).Success? {
      var k := FirstFailingCheck(cs, q);
      RunChecksFailure(cs, k, q);
      assert false;
    }
    RunChecksSuccess(cs, q);
    var p := Passing(q);
    assert r == Filter(cs, p);
    FilterIsSubsequence(cs, p);
    SubsequenceTransitive(r, cs, t);
    forall c | c in r
      ensures c in t && At(c, q.segment, q.field) == Some(JString(q.value))
    {
      EvaluateMeaning(c, q);
    }
    if Plain(q.segment) {
      forall c | c in t && At(c, q.segment, q.field) == Some(JString(q.value))
        ensures c in r
      {
        EvaluateMeaning(c, q);
        PrefilterComplete(t, c, q.segment);
      }
    }
  }

  /** A search throws exactly when the query cannot be parsed or some candidate's check throws. */
  lemma SearchFailure(t: Table, params: seq<Param>)
    ensures Search(t, params).Failure? <==>
              ParseQuery(params).Failure? ||
              exists c | c in FindByMetaDataContains(t, ParseQuery(params).value.segment) ::
                Evaluate(c, ParseQuery(params).value).Failure?
  {
    if ParseQuery(params).Success? {
      var q := ParseQuery(params).value;
      var cs := FindByMetaDataContains(t, q.segment);
      if forall i | 0 <= i < |cs| :: Evaluate(cs[i], q).Success? {
        RunChecksSuccess(cs, q);
      } else {
        var k := FirstFailingCheck(cs, q);
        RunChecksFailure(cs, k, q);
      }
    }
  }

  /** A query whose segment holds an unescaped `/` finds nothing, whatever the
      rows hold under that segment. */
  lemma SearchMissesSlashSegment(t: Table, params: seq<Param>, p: nat)
    requires ParseQuery(params).Success?
    requires var segment := ParseQuery(params).value.segment;
             0 < p < |segment| && segment[p] == '/' && segment[p - 1] != '\\'
    ensures Search(t, params) == Success([])
  {
    PrefilterMissesSlash(t, ParseQuery(params).value.segment, p);
  }
}
