/** `ConfigService`: the store operations over the repository's table and the
    path-filter search. */
module Service {
  import opened Wrappers
  import opened Seqs
  import opened Json
  import opened Repository
  import opened QueryEvaluator

  class ConfigService {
    /** The rows of the `configs` table, read and written through the repository. */
    var table: Table

    /** The database's primary-key constraint on the name column, and metadata
        that was written from a bound request body. */
    ghost predicate Valid()
      reads this
    {
      UniqueNames(table) && WellFormedRows(table)
    }

    constructor (rows: Table)
      requires UniqueNames(rows) && WellFormedRows(rows)
      ensures Valid() && table == rows
    {
      table := rows;
    }

    /** `createConfig`: saves a row with the given name and metadata and returns
        it. A save under a name already present overwrites that row. */
    method CreateConfig(dto: Config) returns (config: Config)
      requires Valid() && WellFormed(JObject(dto.metaData))
      modifies this
      ensures Valid()
      ensures config == dto
      ensures table == Save(old(table), dto)
      ensures Store(table) == Store(old(table))[dto.name := dto.metaData]
    {
      config := Config(dto.name, dto.metaData);
      SaveStore(table, config);
      SaveKeepsWellFormed(table, config);
      table := Save(table, config);
    }

    /** `updateConfig`: replaces the metadata of the row named `name`, keeping
        its name (the name in `dto` is not used), or reports absence. */
    method UpdateConfig(name: string, dto: Config) returns (updated: Option<Config>)
      requires Valid() && WellFormed(JObject(dto.metaData))
      modifies this
      ensures Valid()
      ensures FindByName(old(table), name).None? ==> updated == None && table == old(table)
      ensures FindByName(old(table), name).Some? ==>
                && updated == Some(Config(name, dto.metaData))
                && table == Save(old(table), Config(name, dto.metaData))
                && |table| == |old(table)|
                && Store(table) == Store(old(table))[name := dto.metaData]
    {
      var existing := FindByName(table, name);
      match existing
      case None =>
        updated := None;
      case Some(config) =>
        var changed := Config(config.name, dto.metaData);
        SaveStore(table, changed);
        SaveKeepsWellFormed(table, changed);
        table := Save(table, changed);
        updated := Some(changed);
    }

    /** `deleteConfig`: removes the row named `name` if there is one. */
    method DeleteConfig(name: string)
      requires Valid()
      modifies this
      ensures Valid()
      ensures table == Delete(old(table), name)
      ensures FindByName(old(table), name).None? ==> table == old(table)
      ensures FindByName(old(table), name).Some? ==> |table| == |old(table)| - 1
      ensures Store(table) == Store(old(table)) - {name}
    {
      var existing := FindByName(table, name);
      if existing.Some? {
        DeleteStore(table, name);
        DeleteKeepsWellFormed(table, name);
        table := Delete(table, name);
      } else {
        DeleteStore(table, name);
      }
    }

    /** `getAllConfig`: every row, one entry per stored name. */
    function GetAllConfig(): (all: seq<Config>)
      requires Valid()
      reads this
      ensures |all| == |Store(table)|
      ensures forall c | c in all :: c.name in Store(table) && Store(table)[c.name] == c.metaData
      ensures forall n | n in Store(table) :: Config(n, Store(table)[n]) in all
    {
      StoreSize(table);
      StoreRows(table);
      table
    }

    /** `getConfigByName`: the row named `name`, present exactly when the name is stored. */
    function GetConfigByName(name: string): (r: Option<Config>)
      requires Valid()
      reads this
      ensures r.Some? <==> name in Store(table)
      ensures r.Some? ==> r.value == Config(name, Store(table)[name])
      ensures r.Some? ==> WellFormed(JObject(r.value.metaData))
    {
      FindByName(table, name)
    }

    /** `searchConfigs`: parses the query from the first parameter, then checks
        the substring candidates. */
    method SearchConfigs(params: seq<Param>) returns (r: Result<seq<Config>, SearchError>)
      ensures r == Search(table, params)
    {
      var query := ParseQuery(params);
      if query.Failure? {
        return Failure(query.error);
      }
      var candidates := FindByMetaDataContains(table, query.value.segment);
      r := CheckCandidates(candidates, query.value);
    }
  }

  /** The `forEach` of `searchConfigs` over the candidates, in order, appending
      each one that passes; the first check that throws ends the search. */
  method CheckCandidates(candidates: seq<Config>, q: Query) returns (r: Result<seq<Config>, SearchError>)
    ensures r == RunChecks(candidates, q)
  {
    var filtered: seq<Config> := [];
    var i := 0;
    while i < |candidates|
      invariant 0 <= i <= |candidates|
      invariant RunChecks(candidates[..i], q) == Success(filtered)
    {
      var c := candidates[i];
      var check := Evaluate(c, q);
      assert candidates[..i + 1] == candidates[..i] + [c];
      if check.Failure? {
        RunChecksFailureSticks(candidates, i + 1, q);
        return Failure(check.error);
      }
      RunChecksStep(candidates[..i], c, q);
      if check.value {
        filtered := filtered + [c];
      }
      i := i + 1;
    }
    assert candidates[..i] == candidates;
    r := Success(filtered);
  }
}
