/** The read API over the finished time map: the readiness gate in front of
    every route under `/api/` and the `/api/model`, `/api/field` and
    `/api/version` handlers. */
module Query {
  import opened Archive
  import opened Timeline

  /** The `time` query parameter: absent or empty, present but not a
      number once parsed with `parseInt(time, 10)`, or that number. */
  datatype TimeParam = Missing | NotANumber | Number(n: int)

  /** A GET request under `/api/`. */
  datatype Route = ModelRoute | FieldRoute(time: TimeParam) | VersionRoute | OtherApiRoute

  datatype Body =
    | PlanText(text: Option<string>)
    | FieldJson(modelHash: Option<string>, modelField: string, modelEngines: seq<Bytes>)
    | VersionJson(name: string, buildVersion: string, buildDatetime: string)

  /** `Ok` is a 200 reply and `BadRequest` a 400 reply with a JSON `error`
      member; `Unhandled` means no handler of the service answers and the
      request falls through to the web framework's default. */
  datatype Response = Ok(body: Body) | BadRequest(error: string) | Unhandled

  const NotReady: string := "data not ready"
  const TimeNotSpecified: string := "time not specified"
  const NoDataFound: string := "no data found"

  /** The fixed descriptor `/api/version` returns. */
  function Version(): Body
  {
    VersionJson("field-model-converter", "1", "2021-09-24 15-42-07")
  }

  /** `/api/field`: one second of the day. It answers only when the field
      slot holds non-empty text; engine data at that second never makes it
      answer on its own. */
  function FieldLookup(m: TimeMap, time: TimeParam): (r: Response)
    requires WellFormed(m)
    ensures r.Ok? <==>
      time.Number? && InDay(time.n) && m.field[time.n].Some? && m.field[time.n].value != ""
    ensures r.Ok? ==> r.body == FieldJson(m.modelHash, m.field[time.n].value, m.engines[time.n])
    ensures !r.Ok? ==> r == BadRequest(if time.Missing? then TimeNotSpecified else NoDataFound)
  {
    match time
    case Missing => BadRequest(TimeNotSpecified)
    case NotANumber => BadRequest(NoDataFound)
    case Number(n) =>
      if !InDay(n) || m.field[n] == None || m.field[n].value == "" then BadRequest(NoDataFound)
      else Ok(FieldJson(m.modelHash, m.field[n].value, m.engines[n]))
  }

  /** One request under `/api/`. The readiness gate is registered before
      every handler, `/api/version` included, so nothing answers before the
      archive has been ingested. */
  function Handle(ready: bool, m: TimeMap, route: Route): (r: Response)
    requires WellFormed(m)
    ensures !ready ==> r == BadRequest(NotReady)
    ensures ready ==> r != BadRequest(NotReady)
    ensures ready && route.FieldRoute? ==> r == FieldLookup(m, route.time)
    ensures ready && route.ModelRoute? ==> r == Ok(PlanText(m.model))
    ensures ready && route.VersionRoute? ==> r == Ok(Version())
    ensures ready && route.OtherApiRoute? ==> r == Unhandled
  {
    if !ready then BadRequest(NotReady)
    else
      match route
      case ModelRoute => Ok(PlanText(m.model))
      case FieldRoute(time) => FieldLookup(m, time)
      case VersionRoute => Ok(Version())
      case OtherApiRoute => Unhandled
  }
}
