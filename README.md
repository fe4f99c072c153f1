# Config store of lightchurch, in Dafny

This project models the configuration store of the lightchurch configs API. A
config is a record with a unique `name` and a JSON metadata document, kept in
the `configs` table as compact JSON text. The model covers four parts:

- `ConfigsRepository`: the table and its two queries. `findByName` looks up a
  key. `findByMetaDataContains` is a substring scan over the stored text.
- `ConfigService`: the mutations (`createConfig`, `updateConfig`,
  `deleteConfig`), the reads (`getAllConfig`, `getConfigByName`) and
  `searchConfigs`.
- `searchConfigs` answers a single `metadata.<segment>.<field>=<value>`
  predicate in two steps. The substring scan for `segment` picks the
  candidates. Each candidate is then parsed and checked against the value.
- `ConfigsController`: the name-conflict and not-found guards in front of the
  service.

Files, one module each:

| file | module | contents |
|---|---|---|
| `Wrappers.dfy` | `Wrappers` | `Option` and `Result` |
| `Seqs.dfy` | `Seqs` | order-preserving `Filter`, `IsSubsequence` |
| `Strings.dfy` | `Strings` | substring test (SQL `LIKE '%s%'`); Java `String.split` and `equalsIgnoreCase` |
| `Json.dfy` | `Json` | the document datatype; the `HashMap.get` lookup; the compact text writer |
| `Repository.dfy` | `Repository` | the table as a sequence of rows; its name-keyed map view; `save`, `delete`, the two queries |
| `QueryEvaluator.dfy` | `QueryEvaluator` | parsing the predicate, the per-candidate check with its exceptions, the search as a function |
| `ConfigService.dfy` | `Service` | class `ConfigService` holding the table and the service methods; the search loop |
| `ConfigsController.dfy` | `Controller` | class `ConfigsController` and its outcome datatype `Response` |
| `Fixtures.dfy` | `Fixtures` | the three rows from the controller tests and the requests the tests send |

The table is a `seq<Config>` with distinct names. Row order is the order in
which `findAll` and the queries return rows. `Store(t)` is the map from name to
metadata that the primary key makes of it. Most contracts are stated on that
map: create is an insert-or-overwrite, update is an overwrite, delete removes
a key. A JPA `save` of an entity whose id is already set is a merge, so `Save`
overwrites the row with that name in place, and otherwise appends the row.

Metadata is a `Json` value. An object is modelled as its members in document
order. The request body binds `ConfigDTO.metaData` into Jackson's
`LinkedHashMap`s, so a document the service receives has distinct keys in
every object and only `Integer` or `Long` numbers. `WellFormed` states this,
and the service's invariant `Valid` keeps it for every stored row. `Get`
returns the last binding of a key, as reading a text into a `HashMap` does;
with distinct keys that is the one binding (`GetDistinct`). `Serialize`
writes the stored text the way the Android-derived
`org.springframework.boot.configurationprocessor.json.JSONObject` does:

- no whitespace;
- `"`, `\` and `/` behind a backslash;
- `\t`, `\n`, `\r`, `\b` and `\f` as escapes;
- any other character below U+0020 as `\u00xx`, in lower-case hex.

Search follows the Java code. Each exception it lets escape is a `SearchError`:

- no parameter at all: `NoSuchElement`;
- a key that splits into fewer than three parts: `IndexOutOfBounds`. Java's
  `split` drops trailing empty parts, so `metadata.seg.` and `metadata.seg..`
  fail too, while `metadata.seg..x` queries the empty field;
- a candidate whose segment or field is absent or null: `NullPointer`;
- a candidate whose segment is not an object: `ClassCast`.

The first candidate whose check throws ends the whole search. Only a JSON
string can equal the requested value, because the value is compared with
`Object.equals` against a `String`.

In several places the code does not do what one would expect of the
endpoints, and the model follows the code:

- A candidate without the segment or the field is not skipped as "no match".
  It throws, and the search fails.
- Only fewer than three key parts is an error. Parts beyond the third are
  ignored, and an empty part is accepted as a segment or field name.
- A boolean `true` never matches the value `"true"`.
- The name-conflict check on create lives in the controller, not the service.
  The service's `createConfig` saves unconditionally and overwrites.
- One would expect the two-step search to lose no matching row. It does lose
  rows when the segment holds a character the writer escapes. Every `/` in the
  stored text is escaped (`SerializeSlashes`), so a segment such as `a/b`
  never matches a row, even though the row holds the value
  (`PrefilterMissesSlash`, `SlashSegmentMissed`).

## Model

| member | source | states |
|---|---|---|
| Repository.UniqueNames | src/main/java/org/lightchurch/repository/ConfigsRepository.java:19 | the primary-key constraint on `name`: no two rows share a name (the invariant `Service.ConfigService.Valid` keeps) |
| Repository.MetaDataText | src/main/java/org/lightchurch/service/ConfigService.java:43 | the text the metadata column holds: the compact text of the row's document |
| Repository.WellFormedRows | src/main/java/org/lightchurch/service/ConfigService.java:43 | every row holds a document that a request body can have bound |
| Repository.FindByName | src/main/java/org/lightchurch/repository/ConfigsRepository.java:20 | empty exactly when no row has the name; otherwise a row of the table with that name |
| Repository.FindByNameFindsRow | src/main/java/org/lightchurch/repository/ConfigsRepository.java:19-20 | with unique names, looking up any row's name returns that row |
| Repository.Store | src/main/java/org/lightchurch/repository/ConfigsRepository.java:19 | the keyed view: a name is a key exactly when `findByName` finds it, and it maps to that row's metadata |
| Repository.StoreSize | src/main/java/org/lightchurch/repository/ConfigsRepository.java:19 | one key per row: the map has as many keys as the table has rows |
| Repository.StoreRows | src/main/java/org/lightchurch/repository/ConfigsRepository.java:19 | every row is an entry of the keyed view, and every entry is a row |
| Repository.Save | src/main/java/org/lightchurch/service/ConfigService.java:44 | `save`: an existing name keeps the table's size; a new name appends exactly that row |
| Repository.FindByNameAfterSave | src/main/java/org/lightchurch/service/ConfigService.java:44 | after `save(c)`, `c`'s name finds `c` and every other name finds what it found before |
| Repository.SaveKeepsUniqueNames | src/main/java/org/lightchurch/service/ConfigService.java:44 | `save` keeps names unique |
| Repository.SaveStore | src/main/java/org/lightchurch/service/ConfigService.java:44 | in the keyed view `save(c)` is `Store[c.name := c.metaData]` |
| Repository.SaveKeepsRows | src/main/java/org/lightchurch/service/ConfigService.java:44 | after a save every row is the saved one or was there before |
| Repository.SaveKeepsWellFormed | src/main/java/org/lightchurch/service/ConfigService.java:44 | saving a well-formed document keeps every row well formed |
| Repository.Delete | src/main/java/org/lightchurch/service/ConfigService.java:80 | `delete`: an absent name leaves the table as it is; a present one removes exactly one row |
| Repository.DeleteKeepsRows | src/main/java/org/lightchurch/service/ConfigService.java:80 | every row left after a delete was in the table, and with unique names it is not the deleted name |
| Repository.DeleteKeepsUniqueNames | src/main/java/org/lightchurch/service/ConfigService.java:80 | `delete` keeps names unique |
| Repository.DeleteKeepsWellFormed | src/main/java/org/lightchurch/service/ConfigService.java:80 | `delete` keeps every row well formed |
| Repository.FindByNameAfterDelete | src/main/java/org/lightchurch/service/ConfigService.java:76-83 | after deleting `n`, `n` finds nothing and every other name finds what it found before |
| Repository.DeleteStoreAt | src/main/java/org/lightchurch/service/ConfigService.java:76-83 | pointwise: a name is kept after deleting `n` exactly when it was there and is not `n`, with its metadata unchanged |
| Repository.DeleteStore | src/main/java/org/lightchurch/service/ConfigService.java:76-83 | in the keyed view deleting `n` is `Store - {n}` |
| Repository.DeleteIdempotent | src/main/java/org/lightchurch/service/ConfigService.java:75-84 | deleting twice is deleting once |
| Repository.FindByMetaDataContains | src/main/java/org/lightchurch/repository/ConfigsRepository.java:22 | the rows whose text contains the string, all of them and only them, as a subsequence of the table; the whole table when every row contains it |
| Repository.PrefilterComplete | src/main/java/org/lightchurch/repository/ConfigsRepository.java:22 | a row with the segment as a top-level key is a candidate, when the writer copies the segment unchanged |
| Repository.PrefilterMissesSlash | src/main/java/org/lightchurch/repository/ConfigsRepository.java:22 | a segment holding `/` after a character other than a backslash matches no row's text |
| Json.Get | src/main/java/org/lightchurch/service/ConfigService.java:119-122 | `HashMap.get` after reading the text: empty exactly when no member has the key; otherwise the value of the last such member |
| Json.WellFormed | src/main/java/org/lightchurch/service/dto/ConfigDTO.java:25-26 | a document a `Map<String, Object>` body can hold: no object holds a key twice, every integer within the `long` range |
| Json.GetDistinct | src/main/java/org/lightchurch/service/ConfigService.java:119-122 | with distinct keys, `get` returns the one member holding the key |
| Json.Serialize | src/main/java/org/lightchurch/service/ConfigService.java:43 | the compact text of a document: no whitespace, members in document order, strings escaped |
| Json.SerializeMembers | src/main/java/org/lightchurch/service/ConfigService.java:43 | an object's members written one after another, separated by commas |
| Json.Escape | src/main/java/org/lightchurch/service/ConfigService.java:43 | the writer's string escaping, character by character |
| Json.EscapeIdentity | src/main/java/org/lightchurch/service/ConfigService.java:43 | the writer's escaping never shortens a string, and leaves it unchanged exactly when no character needs escaping |
| Json.MemberInMembers | src/main/java/org/lightchurch/service/ConfigService.java:43 | each member's text is a substring of the comma-separated members' text |
| Json.MemberInObject | src/main/java/org/lightchurch/service/ConfigService.java:43 | each member's text is a substring of the object's text |
| Json.ValueInObject | src/main/java/org/lightchurch/service/ConfigService.java:43 | each member value's text is a substring of the object's text |
| Json.QuotedKeyInObject | src/main/java/org/lightchurch/service/ConfigService.java:43 | each member's quoted key is a substring of the object's text |
| Json.KeyInObject | src/main/java/org/lightchurch/service/ConfigService.java:43 | a key that `get` finds appears quoted in the text, and literally when it needs no escaping |
| Json.EscapeSlashes | src/main/java/org/lightchurch/service/ConfigService.java:43 | every `/` in an escaped string follows a backslash |
| Json.SerializeSlashes | src/main/java/org/lightchurch/service/ConfigService.java:43 | every `/` in the stored text follows a backslash |
| Json.UnescapedSlashNotContained | src/main/java/org/lightchurch/repository/ConfigsRepository.java:22 | such a text does not contain a string with a `/` that follows another character |
| Strings.Split | src/main/java/org/lightchurch/service/ConfigService.java:108 | `split("\\.")`: the key itself when it has no dot; otherwise parts without dots, the last one nonempty, that joined with dots and followed by one dot per dropped empty part give back the key |
| Strings.Pieces | src/main/java/org/lightchurch/service/ConfigService.java:108 | the parts between the dots, empty ones included: one more than there are dots, none holding a dot, and joined with dots they give back the text |
| Strings.PiecesOfJoin | src/main/java/org/lightchurch/service/ConfigService.java:108 | those parts are unique: any dot-free parts that join to a text are its pieces |
| Strings.SplitThreeParts | src/main/java/org/lightchurch/service/ConfigService.java:108-110 | a key `root.segment.field`, with any further dot-separated parts, splits with `segment` and `field` at indices 1 and 2, whenever the field or a later part is nonempty (so `a.seg..x` gives the empty field) |
| Strings.SplitDropsEmptyField | src/main/java/org/lightchurch/service/ConfigService.java:108-110 | a key `root.segment.` followed by dots only splits into fewer than three parts |
| Strings.Contains | src/main/java/org/lightchurch/repository/ConfigsRepository.java:22 | the `LIKE '%s%'` test: the string occurs at some position of the text |
| Strings.EqualsIgnoreCase | src/main/java/org/lightchurch/web/rest/ConfigsController.java:86 | `equalsIgnoreCase`: same length, and each pair of characters equal or equal when upper-cased |
| Strings.EqualsIgnoreCaseIsEquivalence | src/main/java/org/lightchurch/web/rest/ConfigsController.java:86 | the test is reflexive, symmetric and transitive |
| Strings.PiecesConcat | src/main/java/org/lightchurch/service/ConfigService.java:108 | splitting at one separator splits the two sides independently |
| Strings.DropTrailingEmptyKeepsPrefix | src/main/java/org/lightchurch/service/ConfigService.java:108 | removing trailing empty parts does not reach a prefix that ends in a nonempty part |
| QueryEvaluator.ParseQueryUsesSecondAndThirdPart | src/main/java/org/lightchurch/service/ConfigService.java:107-111 | only the first parameter counts; the query takes parts 1 and 2 of its key and its value, whatever the root, the later parts and the other parameters, empty parts included as long as the split keeps the field |
| QueryEvaluator.ParseQueryTooFewParts | src/main/java/org/lightchurch/service/ConfigService.java:108-110 | a key with fewer than two dots raises the index error |
| QueryEvaluator.ParseQueryDropsEmptyField | src/main/java/org/lightchurch/service/ConfigService.java:108-110 | a key whose field and later parts are all empty (`a.b.`, `a.b..`) raises the index error |
| QueryEvaluator.ParseQuery | src/main/java/org/lightchurch/service/ConfigService.java:107-111 | no parameter is `NoSuchElement`; fewer than three parts is `IndexOutOfBounds`; otherwise parts 1 and 2 and the value of the first parameter |
| QueryEvaluator.At | src/main/java/org/lightchurch/service/ConfigService.java:119-122 | the value at `metadata[segment][field]` when the segment holds an object that has the field |
| QueryEvaluator.Evaluate | src/main/java/org/lightchurch/service/ConfigService.java:119-122 | one candidate's check: the null pointer, the class cast, or whether the string `value` sits at the path |
| QueryEvaluator.RunChecks | src/main/java/org/lightchurch/service/ConfigService.java:113-129 | the pass over the candidates in order: the passing ones, or the first exception |
| QueryEvaluator.Search | src/main/java/org/lightchurch/service/ConfigService.java:106-132 | parse, take the substring candidates, run the checks |
| QueryEvaluator.EvaluateMeaning | src/main/java/org/lightchurch/service/ConfigService.java:119-122 | a candidate passes exactly when the string `value` sits at `metadata[segment][field]`; the check throws exactly when that path is missing or ends in null |
| QueryEvaluator.RunChecksFailureSticks | src/main/java/org/lightchurch/service/ConfigService.java:116-127 | once the checks on a prefix of the candidates have thrown, the whole pass has thrown the same |
| QueryEvaluator.RunChecksStep | src/main/java/org/lightchurch/service/ConfigService.java:116-127 | one more candidate that does not throw extends the result by itself if it passes and by nothing otherwise |
| QueryEvaluator.RunChecksSucceeds | src/main/java/org/lightchurch/service/ConfigService.java:116-127 | when no check throws, the pass does not throw |
| QueryEvaluator.RunChecksSuccess | src/main/java/org/lightchurch/service/ConfigService.java:113-129 | when no check throws, the result is exactly the passing candidates in candidate order |
| QueryEvaluator.RunChecksFailure | src/main/java/org/lightchurch/service/ConfigService.java:113-129 | when a check throws, the search fails with the exception of the first candidate that throws |
| QueryEvaluator.FirstFailingCheck | src/main/java/org/lightchurch/service/ConfigService.java:116-127 | if some check throws, there is a first candidate whose check throws |
| QueryEvaluator.SearchResult | src/main/java/org/lightchurch/service/ConfigService.java:106-132 | a successful search is a subsequence of the candidates and of the table; every result holds the string `value` at the path; for a segment written unescaped, every row holding it is in the result |
| QueryEvaluator.SearchFailure | src/main/java/org/lightchurch/service/ConfigService.java:106-132 | a search fails exactly when the predicate cannot be parsed or some candidate's check throws |
| QueryEvaluator.SearchMissesSlashSegment | src/main/java/org/lightchurch/service/ConfigService.java:106-132 | a segment holding an unescaped `/` makes the search return no rows, whatever the rows hold |
| Service.ConfigService.constructor | src/main/java/org/lightchurch/service/ConfigService.java:32-34 | the service starts over a table with unique names and well-formed documents |
| Service.ConfigService.Valid | src/main/java/org/lightchurch/repository/ConfigsRepository.java:19 | the invariant every service operation keeps: unique names, and every row's document well formed |
| Service.ConfigService.CreateConfig | src/main/java/org/lightchurch/service/ConfigService.java:40-47 | returns the row with the given name and metadata; the store maps that name to that metadata and nothing else changes |
| Service.ConfigService.UpdateConfig | src/main/java/org/lightchurch/service/ConfigService.java:55-68 | an absent name returns empty and changes nothing; a present one has only its metadata replaced (name kept), with every other entry unchanged and the row count the same |
| Service.ConfigService.DeleteConfig | src/main/java/org/lightchurch/service/ConfigService.java:75-84 | the name is no longer stored and every other entry is unchanged; absent is a no-op; present removes exactly one row |
| Service.ConfigService.GetAllConfig | src/main/java/org/lightchurch/service/ConfigService.java:90-92 | one entry per stored name, each the stored name and metadata, and every stored entry is listed |
| Service.ConfigService.GetConfigByName | src/main/java/org/lightchurch/service/ConfigService.java:98-100 | present exactly when the name is stored, and then the stored row, whose document is well formed |
| Service.ConfigService.SearchConfigs | src/main/java/org/lightchurch/service/ConfigService.java:106-132 | returns `Search` of the current table, the function the lemmas above describe |
| Service.CheckCandidates | src/main/java/org/lightchurch/service/ConfigService.java:113-129 | the `forEach` loop returns the pass over the candidates: the passing ones in order, or the first exception |
| Controller.ConfigsController.constructor | src/main/java/org/lightchurch/web/rest/ConfigsController.java:38-41 | the controller works on the given service |
| Controller.ConfigsController.GetAllConfigs | src/main/java/org/lightchurch/web/rest/ConfigsController.java:43-46 | OK with one entry per stored name, each stored, every stored entry listed |
| Controller.ConfigsController.CreateConfig | src/main/java/org/lightchurch/web/rest/ConfigsController.java:60-72 | a stored name is refused as already used and the table is unchanged; a new name is created, appended as one more row, and the store gains that entry |
| Controller.ConfigsController.UpdateConfig | src/main/java/org/lightchurch/web/rest/ConfigsController.java:82-90 | a stored name differing from the body's name, ignoring case, is refused with the table unchanged; the body's own name is never refused; an absent name is not found, with the table unchanged; otherwise OK with the name kept, only that entry's metadata replaced, same row count |
| Controller.ConfigsController.DeleteConfig | src/main/java/org/lightchurch/web/rest/ConfigsController.java:99-103 | always no content; the name is gone afterwards; one row fewer if it existed, unchanged table otherwise |
| Controller.ConfigsController.GetConfigByName | src/main/java/org/lightchurch/web/rest/ConfigsController.java:112-117 | not found exactly when the name is not stored; otherwise OK with the stored row |
| Controller.ConfigsController.SearchConfigs | src/main/java/org/lightchurch/web/rest/ConfigsController.java:127-130 | OK with the search result, or the search's exception as a server error |
| Fixtures.FixtureTextContains | src/test/java/org/lightchurch/web/rest/ConfigsControllerTest.java:58-73 | each fixture row's text contains `monitoring`, a top-level key, and `cpu`, a key nested under `limits` |
| Fixtures.CandidatesAreAllRows | src/test/java/org/lightchurch/web/rest/ConfigsControllerTest.java:58-73 | for segment `monitoring` or `cpu`, every fixture row is a candidate |
| Fixtures.MonitoringChecks | src/test/java/org/lightchurch/web/rest/ConfigsControllerTest.java:58-73 | `monitoring.enabled == "true"` passes on `data-src` and `data-src3`, fails on `data-src2`, and throws on none |
| Fixtures.RequestParses | src/test/java/org/lightchurch/web/rest/ConfigsControllerTest.java:36 | a request key `metadata.<segment>.<field>` parses to the query on that segment and field |
| Fixtures.KeepFirstAndThird | src/main/java/org/lightchurch/service/ConfigService.java:116-127 | checks that pass, fail and pass keep the first and the third candidate |
| Fixtures.SearchMonitoringEnabled | src/test/java/org/lightchurch/web/rest/ConfigsControllerTest.java:168-183 | `metadata.monitoring.enabled=true` over the three fixtures returns exactly `data-src` and `data-src3` |
| Fixtures.SearchNestedSegmentThrows | src/main/java/org/lightchurch/service/ConfigService.java:119-123 | `metadata.cpu.enabled=true` over the fixtures fails with a null pointer: `cpu` is in every text, but only nested |
| Fixtures.SlashSegmentMissed | src/main/java/org/lightchurch/service/ConfigService.java:112 | a row holding `y` at `a/b.x` is not found by `metadata.a/b.x=y` |
| Fixtures.MetadataText | src/test/java/org/lightchurch/web/rest/ConfigsControllerTest.java:38-42 | a fixture-shaped document is stored as the flat compact text the tests compare with (`DEFAULT_CONFIG_METADATA` at line 111) |

## Left out

- Parsing the stored text back to a document is not modelled. Jackson's `readValue` in `ConfigDTO` and in `searchConfigs` is taken to invert the writer. Rows carry the document itself, and `MetaDataText` gives the text that the substring scan sees.
- Because of that, the `JsonProcessingException` branch of `searchConfigs` (logged and skipped) cannot be reached in the model. With well-formed stored text it cannot be reached in the source either.
- Binding the request body is not modelled. Jackson would collapse a key that occurs twice (the last value wins, at the key's first position) and bind an integer beyond the `long` range as a `BigInteger`, which `new JSONObject(map)` stores as a JSON string. The create and update operations of both classes take the bound `Map` instead, and require it to be `WellFormed`.
- `new JSONObject(map)` writes keys in the iteration order of Jackson's `LinkedHashMap`, which is the order of their first occurrence in the request. The model writes members in document order, which is the same for a `WellFormed` document.
- JSON numbers are integers. Floating-point values and their text form are not modelled.
- HTTP plumbing is reduced to the `Response` outcomes: `ResponseEntity`, status codes, headers, `ResponseUtil.wrapOrNotFound` and the exception-to-status mapping.
- The controller's logging of the request parameters through `writeValueAsString` is not modelled, and neither is its `JsonProcessingException`. All other logging is left out too.
- `@Transactional`, JPA dirty checking, flushing, database concurrency and isolation are left out. The update's `setMetaData` on the managed entity becomes a `Save` of the changed row.
- Null names, null metadata and bean validation (`@Valid`) are not modelled. The DTO's name and metadata are always present.
- The database's collation for `findByName` and `LIKE` (for example case-insensitive matching) is not modelled. Both compare characters exactly.
- `equalsIgnoreCase` folds ASCII letters only. Unicode case folding is not modelled.
- The order of request parameters is taken as given. `params` is a `Map`, and its iteration order decides which pair is "first".
- The table's row order stands for the order in which the database returns rows, which the source does not fix.
- PrefilterComplete: it is stated only for a segment that needs no escaping (`Plain`). For other segments the source's pre-filter can miss rows, as `PrefilterMissesSlash` shows.
- QueryEvaluator.ParseQueryTooFewParts: it states only the sufficient condition (fewer than two dots). Keys whose field and later parts are all empty, such as `a.b.` or `a.b..`, fail as well; `QueryEvaluator.ParseQueryDropsEmptyField` states that case.
- `ConfigDTO` and `Config` are folded into the `Config` datatype. `ArchTest`, the Cucumber context, `ApplicationProperties` and the exception classes are not part of this model.
