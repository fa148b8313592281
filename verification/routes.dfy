/** One request, end to end: the API-key gate in front of every route, then
    the handler for the route the request was matched to, then the status
    code and body it is answered with. The catalog is threaded through as an
    explicit value instead of process-wide state. */
module Routes {
  import opened JsValues
  import opened Responses
  import opened Catalog
  import opened Queries
  import opened Mutations
  import StatsObject

  /** A request already matched to its route, with its parameters read. */
  datatype Request =
    | Welcome
    | ListProducts(category: Option<string>, page: Option<int>, limit: Option<int>)
    | SearchProducts(name: Option<string>)
    | ProductStats
    | GetProduct(id: Id)
    | CreateProduct(body: Body)
    | UpdateProduct(id: Id, body: Body)
    | DeleteProduct(id: Id)

  /** The body of an answer. */
  datatype Payload =
    | Text(text: string)
    | ListingPayload(listing: Listing)
    | Records(records: seq<Product>)
    | Counts(counts: map<string, nat>)
    | Record(record: Product)
    | ErrorPayload(message: string)

  datatype Response = Response(status: nat, payload: Payload)

  /** The answer together with the catalog after the request. */
  datatype Outcome = Outcome(response: Response, store: seq<Product>)

  const WelcomeText: string := "Welcome to the Product API!"

  /** The key used when the environment supplies none. */
  const DefaultApiKey: string := "mysecretkey123"

  /** `process.env.API_KEY || "mysecretkey123"`: an absent or empty setting
      falls back to the default key. */
  function ConfiguredKey(env: Option<string>): (k: string)
    ensures TruthyString(env) ==> k == env.value
    ensures !TruthyString(env) ==> k == DefaultApiKey
    ensures k != ""
  {
    OrString(env, DefaultApiKey)
  }

  /** The gate compares the `x-api-key` header with the configured key by
      strict equality; a missing header never matches. */
  function Authorized(header: Option<string>, apiKey: string): (ok: bool)
    ensures ok <==> header == Some(apiKey)
  {
    header.Some? && header.value == apiKey
  }

  /** The requests that only read the catalog. */
  predicate IsRead(req: Request) {
    !(req.CreateProduct? || req.UpdateProduct? || req.DeleteProduct?)
  }

  function Failed(e: ErrorKind): Response {
    Response(StatusCode(e), ErrorPayload(ErrorMessage(e)))
  }

  /** A read handler's result is answered as it should be: an error kind with
      its status and message, a value with 200 and its payload. */
  predicate Answered<T>(r: Result<T>, resp: Response, render: T -> Payload) {
    match r
    case Err(e) => resp == Failed(e)
    case Ok(v) => resp == Response(200, render(v))
  }

  /** A write handler's result is answered as it should be: an error kind with
      its status and message and the catalog unchanged; a success with
      `okStatus`, the written record, and the new catalog. */
  predicate WriteAnswered(ps: seq<Product>, r: Result<Mutation>, o: Outcome, okStatus: nat) {
    match r
    case Err(e) => o == Outcome(Failed(e), ps)
    case Ok(m) => o == Outcome(Response(okStatus, Record(m.record)), m.store)
  }

  /** The answer for a write, and the catalog after it. */
  function Written(ps: seq<Product>, r: Result<Mutation>, okStatus: nat): Outcome {
    match r
    case Err(e) => Outcome(Failed(e), ps)
    case Ok(m) => Outcome(Response(okStatus, Record(m.record)), m.store)
  }

  /** Handles one request against catalog `ps`. `newId` is the identifier a
      create would draw. A request that fails the key check is answered 403
      and reaches no handler; a read never changes the catalog; a failed
      write leaves it as it was. */
  function Handle(ps: seq<Product>, header: Option<string>, apiKey: string, req: Request, newId: Id): (o: Outcome)
    ensures !Authorized(header, apiKey) ==> o == Outcome(Failed(Forbidden), ps)
    ensures IsRead(req) ==> o.store == ps
    ensures o.response.payload.ErrorPayload? ==> o.store == ps
    ensures o.response.status in {200, 201, 400, 403, 404}
    ensures Authorized(header, apiKey) && req.Welcome? ==>
      o.response == Response(200, Text(WelcomeText))
    ensures Authorized(header, apiKey) && req.ListProducts? ==>
      o.response == Response(200, ListingPayload(List(ps, req.category, req.page, req.limit)))
    ensures Authorized(header, apiKey) && req.SearchProducts? ==>
      Answered(Search(ps, req.name), o.response, (v: seq<Product>) => Records(v))
    ensures Authorized(header, apiKey) && req.ProductStats? ==>
      o.response == Response(200, Counts(Stats(ps)))
    ensures Authorized(header, apiKey) && req.GetProduct? ==>
      Answered(Get(ps, req.id), o.response, (v: Product) => Record(v))
    ensures Authorized(header, apiKey) && req.CreateProduct? ==>
      WriteAnswered(ps, Create(ps, req.body, newId), o, 201)
    ensures Authorized(header, apiKey) && req.UpdateProduct? ==>
      WriteAnswered(ps, Update(ps, req.id, req.body), o, 200)
    ensures Authorized(header, apiKey) && req.DeleteProduct? ==>
      WriteAnswered(ps, Delete(ps, req.id), o, 200)
  {
    if !Authorized(header, apiKey) then Outcome(Failed(Forbidden), ps)
    else
      match req
      case Welcome => Outcome(Response(200, Text(WelcomeText)), ps)
      case ListProducts(category, page, limit) =>
        Outcome(Response(200, ListingPayload(List(ps, category, page, limit))), ps)
      case SearchProducts(name) =>
        (match Search(ps, name)
         case Err(e) => Outcome(Failed(e), ps)
         case Ok(matches) => Outcome(Response(200, Records(matches)), ps))
      case ProductStats => Outcome(Response(200, Counts(Stats(ps))), ps)
      case GetProduct(id) =>
        (match Get(ps, id)
         case Err(e) => Outcome(Failed(e), ps)
         case Ok(p) => Outcome(Response(200, Record(p)), ps))
      case CreateProduct(b) => Written(ps, Create(ps, b, newId), 201)
      case UpdateProduct(id, b) => Written(ps, Update(ps, id, b), 200)
      case DeleteProduct(id) => Written(ps, Delete(ps, id), 200)
  }

  /** The statistics answer carries the intended counts. Unless a category is
      named after an `Object.prototype` member, these are exactly the numbers
      the object built by the code holds. */
  lemma StatsAnswerAsWritten(ps: seq<Product>, header: Option<string>, apiKey: string, newId: Id)
    requires Authorized(header, apiKey)
    requires forall i :: 0 <= i < |ps| ==> ps[i].category !in StatsObject.InheritedNames
    ensures var resp := Handle(ps, header, apiKey, ProductStats, newId).response;
      && resp.status == 200
      && resp.payload.Counts?
      && StatsObject.AsNumbers(resp.payload.counts) == StatsObject.StatsAsWritten(ps)
  {
    var resp := Handle(ps, header, apiKey, ProductStats, newId).response;
    assert resp == Response(200, Counts(Stats(ps)));
    StatsObject.AgreesAwayFromInherited(ps);
  }

  /** Every request keeps the catalog invariant, provided a create draws an id
      not yet in use. */
  lemma HandleKeepsWellKept(ps: seq<Product>, header: Option<string>, apiKey: string, req: Request, newId: Id)
    requires WellKept(ps)
    requires req.CreateProduct? ==> !IdUsed(ps, newId)
    ensures WellKept(Handle(ps, header, apiKey, req, newId).store)
  {
    if Authorized(header, apiKey) {
      match req
      case CreateProduct(b) => CreateKeepsWellKept(ps, b, newId);
      case UpdateProduct(id, b) => UpdateKeepsWellKept(ps, id, b);
      case DeleteProduct(id) => DeleteKeepsWellKept(ps, id);
      case _ =>
    }
  }

  /** The catalog after handling `reqs` in order, the k-th request drawing
      `ids[k]` should it be a create. */
  function Run(ps: seq<Product>, header: Option<string>, apiKey: string, reqs: seq<Request>, ids: seq<Id>): seq<Product>
    requires |ids| == |reqs|
    decreases |reqs|
  {
    if reqs == [] then ps
    else Run(Handle(ps, header, apiKey, reqs[0], ids[0]).store, header, apiKey, reqs[1..], ids[1..])
  }

  /** Along the run, every create draws an id that the catalog it is applied to
      does not use yet (what `uuidv4` is relied on for). */
  ghost predicate FreshCreates(ps: seq<Product>, header: Option<string>, apiKey: string, reqs: seq<Request>, ids: seq<Id>)
    requires |ids| == |reqs|
    decreases |reqs|
  {
    reqs == [] ||
      ((reqs[0].CreateProduct? ==> !IdUsed(ps, ids[0]))
       && FreshCreates(Handle(ps, header, apiKey, reqs[0], ids[0]).store, header, apiKey, reqs[1..], ids[1..]))
  }

  /** From a well-kept catalog (the seed catalog is one), any run of requests
      whose creates draw fresh ids leaves a catalog with unique ids and
      complete records. */
  lemma {:induction false} RunKeepsWellKept(ps: seq<Product>, header: Option<string>, apiKey: string,
                                           reqs: seq<Request>, ids: seq<Id>)
    requires WellKept(ps)
    requires |ids| == |reqs|
    requires FreshCreates(ps, header, apiKey, reqs, ids)
    ensures WellKept(Run(ps, header, apiKey, reqs, ids))
    decreases |reqs|
  {
    if reqs != [] {
      HandleKeepsWellKept(ps, header, apiKey, reqs[0], ids[0]);
      RunKeepsWellKept(Handle(ps, header, apiKey, reqs[0], ids[0]).store, header, apiKey, reqs[1..], ids[1..]);
    }
  }
}
