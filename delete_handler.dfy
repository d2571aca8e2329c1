/** Deleting Cloudflare routing rules (src/handlers/delete.rs): choosing the
    targets (the ids given, or every rule the zone lists except its catch-all),
    the paginated listing loop, and the per-id delete with its status rule.
    The HTTP client is abstracted: listing is a function from the query of one
    page to what that request yields, deleting a function from URL to outcome. */
module DeleteHandler {
  import opened Common
  import opened Text
  import opened Models
  import ImportHandler

  /** The query string of a listing request: `page` and `per_page`. */
  type Query = seq<(string, string)>

  /** The listing endpoint of the zone, as a function of the query sent to it.
      A failure is a transport error or a body that does not parse. */
  type Fetch = Query -> Result<ListResponse>

  /** The delete options of the command line. */
  datatype DeleteOpts = DeleteOpts(routeIds: seq<string>, deleteAll: bool)

  /** The zone's catch-all rule: its first matcher has type `All`. */
  predicate IsCatchAll(rule: RoutingRule) {
    |rule.matchers| > 0 && rule.matchers[0].kind == All
  }

  /** The `filter_map` closure of `list`: the id of a rule that is not the catch-all. */
  function RuleTarget(rule: RoutingRule): (r: Option<string>)
    ensures r.Some? <==> !IsCatchAll(rule) && rule.id.Some?
    ensures r.Some? ==> r == rule.id
  {
    if IsCatchAll(rule) then None else rule.id
  }

  /** The ids one page contributes to the set of routes. */
  function PageIds(rules: seq<RoutingRule>): (r: set<string>)
    ensures forall id :: id in r <==> exists i :: 0 <= i < |rules| && RuleTarget(rules[i]) == Some(id)
  {
    if rules == [] then {}
    else
      var rest := PageIds(rules[1..]);
      assert forall i :: 1 <= i < |rules| ==> rules[i] == rules[1..][i - 1];
      var own := RuleTarget(rules[0]);
      if own.Some? then {own.value} + rest else rest
  }

  /** The query of page `page`, 50 rules per page. */
  function PageQuery(page: nat): Query {
    [("page", Decimal(page)), ("per_page", "50")]
  }

  /** Every query asks for 50 rules under the page number's digits, so distinct
      pages are asked for with distinct queries. */
  lemma PageQueriesDistinct(p: nat, q: nat)
    ensures |PageQuery(p)| == 2 && PageQuery(p)[0].0 == "page" && PageQuery(p)[1] == ("per_page", "50")
    ensures DecimalValue(PageQuery(p)[0].1) == p
    ensures PageQuery(p) == PageQuery(q) <==> p == q
  {
    DecimalRoundTrip(p);
    if PageQuery(p) == PageQuery(q) {
      assert Decimal(p) == PageQuery(p)[0].1;
      DecimalRoundTrip(q);
    }
  }

  /** A listing response that ends the loop: an error, `success: false`, or an empty page. */
  predicate Stops(outcome: Result<ListResponse>) {
    outcome.Failure? || !outcome.value.success || outcome.value.result == []
  }

  /** The listing ends: some page from 1 on stops the loop. */
  ghost predicate ListingEnds(fetch: Fetch) {
    exists p: nat :: 1 <= p && Stops(fetch(PageQuery(p)))
  }

  /** The first page at or after `from` that stops the loop, given that `bound` does. */
  function SearchStop(fetch: Fetch, from: nat, bound: nat): (r: nat)
    requires 1 <= from <= bound && Stops(fetch(PageQuery(bound)))
    ensures from <= r <= bound && Stops(fetch(PageQuery(r)))
    ensures forall q :: from <= q < r ==> !Stops(fetch(PageQuery(q)))
    decreases bound - from
  {
    if Stops(fetch(PageQuery(from))) then from else SearchStop(fetch, from + 1, bound)
  }

  /** The page on which the listing loop stops. */
  ghost function FirstStop(fetch: Fetch): (r: nat)
    requires ListingEnds(fetch)
    ensures 1 <= r && Stops(fetch(PageQuery(r)))
    ensures forall q :: 1 <= q < r ==> !Stops(fetch(PageQuery(q)))
  {
    var bound: nat :| 1 <= bound && Stops(fetch(PageQuery(bound)));
    SearchStop(fetch, 1, bound)
  }

  /** The routes collected from pages 1 to `n - 1`, none of which stopped the loop. */
  function Collected(fetch: Fetch, n: nat): set<string>
    requires 1 <= n
    requires forall q :: 1 <= q < n ==> !Stops(fetch(PageQuery(q)))
  {
    if n == 1 then {}
    else
      assert !Stops(fetch(PageQuery(n - 1)));
      Collected(fetch, n - 1) + PageIds(fetch(PageQuery(n - 1)).value.result)
  }

  /** `id` is the target of some rule listed on page `p`. */
  predicate ListedOn(fetch: Fetch, p: nat, id: string) {
    var outcome := fetch(PageQuery(p));
    outcome.Success? && id in PageIds(outcome.value.result)
  }

  /** The collected routes are exactly the non-catch-all ids of the pages read. */
  lemma {:induction false} CollectedMembership(fetch: Fetch, n: nat, id: string)
    requires 1 <= n
    requires forall q :: 1 <= q < n ==> !Stops(fetch(PageQuery(q)))
    ensures id in Collected(fetch, n) <==> exists p :: 1 <= p < n && ListedOn(fetch, p, id)
  {
    if n > 1 {
      CollectedMembership(fetch, n - 1, id);
      if ListedOn(fetch, n - 1, id) {
        assert id in Collected(fetch, n);
      }
    }
  }

  /** What `list` returns: the error that stopped it, or every route collected
      before the first empty page. */
  ghost function ListOutcome(fetch: Fetch): (r: Result<set<string>>)
    requires ListingEnds(fetch)
  {
    var n := FirstStop(fetch);
    var outcome := fetch(PageQuery(n));
    if outcome.Failure? then Failure(outcome.error)
    else if !outcome.value.success then Failure(ListingFailed)
    else Success(Collected(fetch, n))
  }

  /** The listing fails exactly when the page it stops on failed or reported
      `success: false` (even when that page is empty); otherwise it returns
      the ids of the non-catch-all rules on every page before it. */
  lemma ListOutcomeMeaning(fetch: Fetch, id: string)
    requires ListingEnds(fetch)
    ensures var last := fetch(PageQuery(FirstStop(fetch)));
      && (ListOutcome(fetch).Failure? <==> last.Failure? || !last.value.success)
      && (last.Success? && !last.value.success ==> ListOutcome(fetch) == Failure(ListingFailed))
      && (ListOutcome(fetch).Success? ==>
            (id in ListOutcome(fetch).value <==> exists p :: 1 <= p < FirstStop(fetch) && ListedOn(fetch, p, id)))
  {
    CollectedMembership(fetch, FirstStop(fetch), id);
  }

  /** `list`: ask for page 1, 2, ... until a page fails, reports
      `success: false`, or comes back empty, gathering the ids of the rules
      that are not the catch-all. */
  method ListRules(fetch: Fetch) returns (r: Result<set<string>>, requests: seq<Query>)
    requires ListingEnds(fetch)
    ensures r == ListOutcome(fetch)
    ensures |requests| == FirstStop(fetch)
    ensures forall i :: 0 <= i < |requests| ==> requests[i] == PageQuery(i + 1)
  {
    var page: nat := 1;
    var query := [("page", Decimal(page)), ("per_page", "50")];
    var routes: set<string> := {};
    requests := [];
    while true
      invariant 1 <= page <= FirstStop(fetch)
      invariant query == PageQuery(page)
      invariant routes == Collected(fetch, page)
      invariant |requests| == page - 1
      invariant forall i :: 0 <= i < |requests| ==> requests[i] == PageQuery(i + 1)
      decreases FirstStop(fetch) - page
    {
      var resp := fetch(query);
      requests := requests + [query];
      if resp.Failure? {
        return Failure(resp.error), requests;
      }
      if !resp.value.success {
        return Failure(ListingFailed), requests;
      }
      if resp.value.result == [] {
        break;
      }
      routes := routes + PageIds(resp.value.result);
      page := page + 1;
      query := query[0 := ("page", Decimal(page))];
    }
    r := Success(routes);
  }

  /** The URL a rule is deleted at. */
  function DeleteUrl(zone: string, id: string): (url: string)
    ensures StartsWith(url, RulesUrl(zone) + "/")
    ensures url[|RulesUrl(zone)| + 1..] == id
  {
    RulesUrl(zone) + "/" + id
  }

  /** Different ids are deleted at different URLs of the same zone. */
  lemma DeleteUrlInjective(zone: string, a: string, b: string)
    ensures DeleteUrl(zone, a) == DeleteUrl(zone, b) <==> a == b
  {
    if DeleteUrl(zone, a) == DeleteUrl(zone, b) {
      var n := |RulesUrl(zone) + "/"|;
      assert a == DeleteUrl(zone, a)[n..];
      assert b == DeleteUrl(zone, b)[n..];
    }
  }

  /** Whether a delete request's outcome aborts the run: a transport error
      does, and so does a response whose status is a client or server error. */
  function DeleteFailure(outcome: SendResult): (r: Option<Error>)
    ensures r.None? <==> (outcome.Response? && !(400 <= outcome.code < 600))
    ensures outcome.SendError? ==> r == Some(Http(outcome.status))
    ensures outcome.Response? && r.Some? ==> r == Some(Http(Some(outcome.code)))
  {
    match outcome
    case SendError(status) => Some(Http(status))
    case Response(code) => if 400 <= code < 600 then Some(Http(Some(code))) else None
  }

  /** Deleting rule `id` does not abort the run. */
  predicate Deleted(zone: string, send: string -> SendResult, id: string) {
    DeleteFailure(send(DeleteUrl(zone, id))).None?
  }

  /** `delete`: one request per id, stopping at the first fatal outcome. The
      concurrent fan-out is modelled as a sequence of requests in an
      unspecified order; `attempted` is that order. */
  method DeleteRules(ids: set<string>, zone: string, send: string -> SendResult)
    returns (r: Result<()>, attempted: seq<string>)
    ensures Distinct(attempted) && forall i :: 0 <= i < |attempted| ==> attempted[i] in ids
    ensures r.Success? <==> forall id :: id in ids ==> Deleted(zone, send, id)
    ensures r.Success? ==> forall id :: id in ids ==> id in attempted
    ensures r.Failure? ==>
      (|attempted| > 0 && DeleteFailure(send(DeleteUrl(zone, attempted[|attempted| - 1]))) == Some(r.error))
    ensures forall i :: 0 <= i < |attempted| - 1 ==> Deleted(zone, send, attempted[i])
    ensures ids == {} ==> r.Success? && attempted == []
  {
    var remaining := ids;
    attempted := [];
    while remaining != {}
      invariant FanOut(ids, remaining, attempted)
      invariant forall i :: 0 <= i < |attempted| ==> Deleted(zone, send, attempted[i])
      invariant ids == {} ==> attempted == []
      decreases |remaining|
    {
      var id :| id in remaining;
      var outcome := send(DeleteUrl(zone, id));
      FanOutStep(ids, remaining, attempted, id);
      attempted := attempted + [id];
      remaining := remaining - {id};
      var failure := DeleteFailure(outcome);
      if failure.Some? {
        assert !Deleted(zone, send, id);
        return Failure(failure.value), attempted;
      }
      assert Deleted(zone, send, id);
    }
    r := Success(());
  }

  /** The ids given on the command line, collected into a set. */
  function ExplicitTargets(routeIds: seq<string>): (r: set<string>)
    ensures forall id :: id in r <==> id in routeIds
    ensures |r| <= |routeIds|
  {
    if routeIds == [] then {}
    else ExplicitTargets(routeIds[1..]) + {routeIds[0]}
  }

  /** The ids `handle` deletes: the listed routes when deleting all, else the given ids. */
  ghost function Targets(opts: DeleteOpts, fetch: Fetch): Result<set<string>>
    requires opts.deleteAll ==> ListingEnds(fetch)
  {
    if opts.deleteAll then ListOutcome(fetch) else Success(ExplicitTargets(opts.routeIds))
  }

  /** `handle` for `delete`: select the targets, then delete them; a failure of
      either phase is reported wrapped with that phase. */
  method DeleteHandle(opts: DeleteOpts, zone: string, fetch: Fetch, send: string -> SendResult)
    returns (r: Result<()>)
    requires opts.deleteAll ==> ListingEnds(fetch)
    ensures Targets(opts, fetch).Failure? ==> r == Failure(Context(ListingRules, Targets(opts, fetch).error))
    ensures Targets(opts, fetch).Success? ==>
      var ids := Targets(opts, fetch).value;
      && (r.Success? <==> forall id :: id in ids ==> Deleted(zone, send, id))
      && (r.Failure? ==> r.error.Context? && r.error.phase == DeletingRules
                         && exists id :: id in ids && DeleteFailure(send(DeleteUrl(zone, id))) == Some(r.error.cause))
  {
    var ids: set<string>;
    if opts.deleteAll {
      var listed, requests := ListRules(fetch);
      if listed.Failure? {
        return Failure(Context(ListingRules, listed.error));
      }
      ids := listed.value;
    } else {
      ids := ExplicitTargets(opts.routeIds);
    }
    var deleted, attempted := DeleteRules(ids, zone, send);
    if deleted.Failure? {
      return Failure(Context(DeletingRules, deleted.error));
    }
    r := Success(());
  }

  /** A rule created by the importer, once the service has given it an id, is
      not mistaken for the catch-all: deleting all rules targets it. */
  lemma ImportedRuleIsTarget(cmd: ImportHandler.ImportCmd, alias: string, note: string, id: string)
    ensures RuleTarget(ImportHandler.CreatePayload(cmd, alias, note).(id := Some(id))) == Some(id)
  {
    var rule := ImportHandler.CreatePayload(cmd, alias, note);
    assert rule.matchers[0].kind == Literal;
  }
}
