/** The shapes of the Cloudflare email-routing API objects the handlers build
    and read (src/models.rs, src/models/list.rs), and the outcome of sending
    one HTTP request. JSON (de)serialisation is not modelled. */
module Models {
  import opened Common

  datatype RouteActionType = Drop | Forward | Worker

  datatype RouteAction = RouteAction(kind: RouteActionType, value: seq<string>)

  datatype RouteMatcherField = To

  /** The source declares only `Literal`, yet the lister compares against
      `All`, the type of the zone's catch-all rule; the model has both. */
  datatype RouteMatcherType = Literal | All

  datatype RouteMatcher = RouteMatcher(field: RouteMatcherField, kind: RouteMatcherType, value: string)

  datatype RoutingRule = RoutingRule(
    actions: seq<RouteAction>,
    enabled: Option<bool>,
    id: Option<string>,
    matchers: seq<RouteMatcher>,
    name: Option<string>,
    priority: Option<nat>)

  datatype ListResponseError = ListResponseError(code: nat, message: string)

  datatype ListResponse = ListResponse(
    result: seq<RoutingRule>,
    errors: seq<ListResponseError>,
    messages: seq<ListResponseError>,
    success: bool)

  /** What `RequestBuilder::send` yields: a response with its HTTP status, or a
      reqwest error carrying the status it was raised for, if any. */
  datatype SendResult = Response(code: nat) | SendError(status: Option<nat>)

  /** The rules endpoint of a zone. */
  function RulesUrl(zone: string): string {
    "https://api.cloudflare.com/client/v4/zones/" + zone + "/email/routing/rules"
  }
}
