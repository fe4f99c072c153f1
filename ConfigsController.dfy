/** `ConfigsController`: the conflict and not-found guards in front of the
    service. Each handler's HTTP response is reduced to its outcome. */
module Controller {
  import opened Wrappers
  import opened Strings
  import opened Json
  import opened Repository
  import opened QueryEvaluator
  import opened Service

  /** The outcome of a request: the status the handler answers with, the
      exception it throws (`NameAlreadyUsedException`), or an exception from
      the search that reaches the client as a server error. */
  datatype Response<T> =
    | Ok(body: T)
    | Created(body: T)
    | NoContent
    | NameAlreadyUsed
    | NotFound
    | ServerError(error: SearchError)

  class ConfigsController {
    const service: ConfigService

    constructor (service: ConfigService)
      ensures this.service == service
    {
      this.service := service;
    }

    /** `GET /configs`: every stored row. */
    method GetAllConfigs() returns (r: Response<seq<Config>>)
      requires service.Valid()
      ensures r.Ok? && |r.body| == |Store(service.table)|
      ensures forall c | c in r.body :: c.name in Store(service.table) && Store(service.table)[c.name] == c.metaData
      ensures forall n | n in Store(service.table) :: Config(n, Store(service.table)[n]) in r.body
    {
      r := Ok(service.GetAllConfig());
    }

    /** `POST /configs`: refused when the name is already stored, without
        touching the store; otherwise the service creates the row. */
    method CreateConfig(dto: Config) returns (r: Response<Config>)
      requires service.Valid() && WellFormed(JObject(dto.metaData))
      modifies service
      ensures service.Valid()
      ensures FindByName(old(service.table), dto.name).Some? ==>
                r == NameAlreadyUsed && service.table == old(service.table)
      ensures FindByName(old(service.table), dto.name).None? ==>
                && r == Created(dto)
                && service.table == old(service.table) + [dto]
                && Store(service.table) == Store(old(service.table))[dto.name := dto.metaData]
    {
      if FindByName(service.table, dto.name).Some? {
        return NameAlreadyUsed;
      }
      var config := service.CreateConfig(dto);
      r := Created(config);
    }

    /** `PUT /configs/{name}`: refused when `name` is stored and the body's name
        differs from it ignoring case; not found when `name` is not stored;
        otherwise the row's metadata is replaced and its name kept. */
    method UpdateConfig(name: string, dto: Config) returns (r: Response<Config>)
      requires service.Valid() && WellFormed(JObject(dto.metaData))
      modifies service
      ensures service.Valid()
      ensures FindByName(old(service.table), name).Some? && !EqualsIgnoreCase(name, dto.name) ==>
                r == NameAlreadyUsed && service.table == old(service.table)
      ensures FindByName(old(service.table), name).None? ==>
                r == NotFound && service.table == old(service.table)
      ensures FindByName(old(service.table), name).Some? && EqualsIgnoreCase(name, dto.name) ==>
                && r == Ok(Config(name, dto.metaData))
                && |service.table| == |old(service.table)|
                && Store(service.table) == Store(old(service.table))[name := dto.metaData]
      ensures FindByName(old(service.table), name).Some? && dto.name == name ==> r.Ok?
    {
      EqualsIgnoreCaseIsEquivalence(name, dto.name, name);
      var existing := FindByName(service.table, name);
      if existing.Some? && !EqualsIgnoreCase(name, dto.name) {
        return NameAlreadyUsed;
      }
      var updated := service.UpdateConfig(name, dto);
      if updated.None? {
        r := NotFound;
      } else {
        r := Ok(updated.value);
      }
    }

    /** `DELETE /configs/{name}`: always no content; the row goes if it was there. */
    method DeleteConfig(name: string) returns (r: Response<()>)
      requires service.Valid()
      modifies service
      ensures service.Valid()
      ensures r == NoContent
      ensures Store(service.table) == Store(old(service.table)) - {name}
      ensures FindByName(old(service.table), name).Some? ==> |service.table| == |old(service.table)| - 1
      ensures FindByName(old(service.table), name).None? ==> service.table == old(service.table)
    {
      service.DeleteConfig(name);
      r := NoContent;
    }

    /** `GET /configs/{name}`: the row, or not found exactly when the name is not stored. */
    method GetConfigByName(name: string) returns (r: Response<Config>)
      requires service.Valid()
      ensures r.NotFound? <==> name !in Store(service.table)
      ensures !r.NotFound? ==> r == Ok(Config(name, Store(service.table)[name]))
    {
      var found := service.GetConfigByName(name);
      if found.None? {
        r := NotFound;
      } else {
        r := Ok(found.value);
      }
    }

    /** `GET /search`: the search result, or the exception it raised as a server error. */
    method SearchConfigs(params: seq<Param>) returns (r: Response<seq<Config>>)
      ensures Search(service.table, params).Success? ==> r == Ok(Search(service.table, params).value)
      ensures Search(service.table, params).Failure? ==> r == ServerError(Search(service.table, params).error)
    {
      var result := service.SearchConfigs(params);
      match result
      case Success(found) => r := Ok(found);
      case Failure(e) => r := ServerError(e);
    }
  }
}
