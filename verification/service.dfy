/** PokemonService: create, paginated list, tiered lookup, partial update
    and delete over the document store, with every exception turned into a
    Result. */
module PokemonService {
  import opened Outcomes
  import opened Text
  import opened Entity
  import opened DocumentStore

  /** The service's configuration: the default page size read at
      construction, mongoose's `isValidObjectId`, and the cast mongoose
      applies to a string before comparing it with `_id` (it maps every
      spelling of an identifier, upper-case hex included, to the stored
      form); both are left uninterpreted. */
  datatype Service = Service(defaultLimit: nat, isValidObjectId: string -> bool, castId: string -> ObjectId)

  /** The query-string pagination payload. */
  datatype Pagination = Pagination(limit: Option<nat>, offset: Option<nat>)

  /** An exception raised inside the service before it reaches the caller:
      a store error (which has an error code), the lookup's
      NotFoundException, or the CastError mongoose raises when a filter's
      `_id` is not shaped like an identifier (neither has a code). */
  datatype Exception = DatabaseError(code: int) | NotFoundException(message: string) | CastFailure(value: string)

  /** The service's answer together with the store it leaves behind. */
  datatype Response<+T> = Response(result: Result<T>, store: Store)

  /** The `code` property of an exception, if it has one. */
  function ErrorCode(e: Exception): Option<int> {
    match e
    case DatabaseError(c) => Some(c)
    case NotFoundException(_) => None
    case CastFailure(_) => None
  }

  /** handleError: a duplicate-key error becomes BadRequest, every other
      exception becomes InternalError; nothing else can come out. */
  function HandleError(e: Exception): (r: Result<Pokemon>)
    ensures r.BadRequest? <==> ErrorCode(e) == Some(DuplicateKey)
    ensures r.InternalError? <==> ErrorCode(e) != Some(DuplicateKey)
  {
    if ErrorCode(e) == Some(DuplicateKey) then BadRequest("The pokemon exist, E11000 duplicate key error")
    else InternalError("Can't create the pokemon")
  }

  /** What the framework answers for an exception the service lets escape:
      a NotFoundException keeps its class and message, anything else is an
      internal error. */
  function Unhandled<T>(e: Exception): (r: Result<T>)
    ensures r.NotFound? <==> e.NotFoundException?
    ensures r.NotFound? ==> r.message == e.message
    ensures !r.NotFound? ==> r.InternalError?
  {
    match e
    case NotFoundException(m) => NotFound(m)
    case DatabaseError(_) => InternalError("Internal server error")
    case CastFailure(_) => InternalError("Internal server error")
  }

  /** The document `create` persists: `name` lower-cased, the rest as given,
      the store's fresh `_id`, version 0. */
  function NewDocument(input: CreatePokemon, freshId: ObjectId): (d: Pokemon)
    ensures d.id == freshId && d.no == input.no && d.extra == input.extra && d.version == Some(0)
    ensures d.name == Lower(input.name) && IsLower(d.name)
  {
    Pokemon(freshId, input.no, Lower(input.name), input.extra, Some(0))
  }

  /** create: insert the payload with its name lower-cased; the store grows
      by exactly that document, or stays as it was and the store's error is
      classified by handleError. */
  function Create(svc: Service, s: Store, input: CreatePokemon, freshId: ObjectId): (r: Response<Pokemon>)
    ensures r.result.Ok? ==>
              && r.result.value.id == freshId && r.result.value.no == input.no
              && r.result.value.name == Lower(input.name) && r.result.value.extra == input.extra
              && r.store.docs == s.docs + [r.result.value] && r.store.outage == s.outage
    ensures r.result.Ok? <==> s.outage.None? && forall d :: d in s.docs ==> Apart(d, NewDocument(input, freshId))
    ensures !r.result.Ok? ==> r.store == s && (r.result.BadRequest? || r.result.InternalError?)
    ensures s.outage.None? && !r.result.Ok? ==> r.result.BadRequest?
    ensures s.outage.Some? ==> r.result == HandleError(DatabaseError(s.outage.value))
    ensures Valid(s) ==> Valid(r.store)
  {
    var doc := NewDocument(input, freshId);
    match Insert(s, doc)
    case Failed(err) => Response(HandleError(DatabaseError(err.code)), s)
    case Done(after) => Response(Ok(doc), after)
  }

  /** The `limit` and `offset` findAll uses: the configured default page
      size and 0 stand in for absent values. */
  function PageBounds(svc: Service, page: Pagination): (bounds: (nat, nat))
    ensures page.limit.None? ==> bounds.0 == svc.defaultLimit
    ensures page.limit.Some? ==> bounds.0 == page.limit.value
    ensures page.offset.None? ==> bounds.1 == 0
    ensures page.offset.Some? ==> bounds.1 == page.offset.value
  {
    (page.limit.GetOr(svc.defaultLimit), page.offset.GetOr(0))
  }

  /** findAll: the stored documents in ascending `no` order, without the
      version key, the first `offset` skipped and at most `limit` kept. */
  function FindAll(svc: Service, s: Store, page: Pagination): (r: Result<seq<Pokemon>>)
    ensures s.outage.Some? ==> r.InternalError?
    ensures s.outage.None? ==> r.Ok?
    ensures r.Ok? ==> |r.value| == PageSize(|s.docs|, PageBounds(svc, page).0, PageBounds(svc, page).1)
    ensures r.Ok? ==> forall i :: 0 <= i < |r.value| ==> r.value[i].version.None?
    ensures r.Ok? ==> ProjectedFrom(r.value, s.docs)
    ensures r.Ok? && Valid(s) ==> forall i, j :: 0 <= i < j < |r.value| ==> r.value[i].no < r.value[j].no
  {
    var bounds := PageBounds(svc, page);
    match Find(s, bounds.0, bounds.1)
    case Failed(err) => Unhandled(DatabaseError(err.code))
    case Done(found) =>
      assert Valid(s) ==> NosDistinct(s.docs);
      Ok(found)
  }

  /** Tier 1: the term reads as a number equal to the document's `no`. */
  predicate ByNo(term: string, d: Pokemon) {
    IsNumeric(term) && d.no == NumericValue(term)
  }

  /** Tier 2: the term is shaped like a store identifier and, once cast,
      equals the document's `_id`. */
  predicate ById(svc: Service, term: string, d: Pokemon) {
    svc.isValidObjectId(term) && d.id == svc.castId(term)
  }

  /** Tier 3: the term equals the document's `name` exactly, case included. */
  predicate ByName(term: string, d: Pokemon) {
    d.name == term
  }

  /** The term identifies the document by one of the three criteria. */
  predicate Matches(svc: Service, term: string, d: Pokemon) {
    ByNo(term, d) || ById(svc, term, d) || ByName(term, d)
  }

  function NotFoundMessage(term: string): (m: string)
    ensures Mentions(m, term)
  {
    MentionsInfix("Pokemon con id, name or no ", term, " no exist");
    "Pokemon con id, name or no " + term + " no exist"
  }

  /** What a document lookup ends in: the document, or the exception it raised. */
  datatype Outcome = Returned(value: Pokemon) | Threw(exception: Exception)

  /** The body of findOne, exceptions included: the `no` lookup only for a
      numeric term, then the `_id` lookup only for an id-shaped term and
      only if nothing was found, then the exact `name` lookup; the first
      tier that finds a document decides. */
  function Resolve(svc: Service, s: Store, term: string): (r: Outcome)
    ensures s.outage.Some? ==> r == Threw(DatabaseError(s.outage.value))
    ensures r.Returned? ==> r.value in s.docs && Matches(svc, term, r.value)
    ensures s.outage.None? ==> (r.Threw? <==> forall d :: d in s.docs ==> !Matches(svc, term, d))
    ensures s.outage.None? && r.Threw? ==> r.exception.NotFoundException? && Mentions(r.exception.message, term)
    ensures (exists d :: d in s.docs && ByNo(term, d)) ==> r.Threw? || ByNo(term, r.value)
    ensures (forall d :: d in s.docs ==> !ByNo(term, d)) && (exists d :: d in s.docs && ById(svc, term, d)) ==>
              r.Threw? || ById(svc, term, r.value)
    ensures (forall d :: d in s.docs ==> !ByNo(term, d) && !ById(svc, term, d)) ==> r.Threw? || ByName(term, r.value)
  {
    if s.outage.Some? then Threw(DatabaseError(s.outage.value))
    else
      var byNo := if IsNumeric(term) then FindFirst(s.docs, (d: Pokemon) => ByNo(term, d)) else None;
      var byId := if byNo.None? && svc.isValidObjectId(term) then FindFirst(s.docs, (d: Pokemon) => ById(svc, term, d)) else byNo;
      var found := if byId.None? then FindFirst(s.docs, (d: Pokemon) => ByName(term, d)) else byId;
      match found
      case None => Threw(NotFoundException(NotFoundMessage(term)))
      case Some(p) => Returned(p)
  }

  /** findOne as the caller sees it: the resolved document, NotFound naming
      the term when no attempted tier finds one. */
  function FindOne(svc: Service, s: Store, term: string): (r: Result<Pokemon>)
    ensures s.outage.Some? ==> r.InternalError?
    ensures s.outage.None? ==> (r.NotFound? <==> forall d :: d in s.docs ==> !Matches(svc, term, d))
    ensures r.NotFound? ==> Mentions(r.message, term)
    ensures s.outage.None? ==> r.Ok? || r.NotFound?
    ensures r.Ok? ==> r.value in s.docs && Matches(svc, term, r.value)
  {
    match Resolve(svc, s, term)
    case Returned(p) => Ok(p)
    case Threw(e) => Unhandled(e)
  }

  /** The update payload as update uses it: a present, non-empty `name` is
      lower-cased, every other field is left as given. */
  function NormalisePatch(patch: UpdatePokemon): (n: UpdatePokemon)
    ensures n.no == patch.no && n.extra == patch.extra
    ensures patch.name.None? <==> n.name.None?
    ensures patch.name.Some? ==> n.name.value == Lower(patch.name.value)
  {
    if patch.name.Some? && patch.name.value != "" then patch.(name := Some(Lower(patch.name.value)))
    else patch
  }

  /** update: resolve the term, merge the normalised patch into that
      document, and answer with the old document overlaid with the patch.
      Any exception inside, the lookup's NotFoundException included, goes
      through handleError. */
  function Update(svc: Service, s: Store, term: string, patch: UpdatePokemon): (r: Response<Pokemon>)
    ensures !r.result.NotFound?
    ensures !r.result.Ok? ==> r.store == s && (r.result.BadRequest? || r.result.InternalError?)
    ensures s.outage.None? && (forall d :: d in s.docs ==> !Matches(svc, term, d)) ==> r.result.InternalError?
    ensures s.outage.Some? ==> r.result == HandleError(DatabaseError(s.outage.value))
    ensures r.result.Ok? && patch.name.Some? ==> r.result.value.name == Lower(patch.name.value)
    ensures r.result.Ok? ==> var found := Resolve(svc, s, term);
                             found.Returned? && r.result.value == Overlay(found.value, NormalisePatch(patch))
    ensures r.result.Ok? && Valid(s) ==>
              exists i :: 0 <= i < |s.docs| && Matches(svc, term, s.docs[i])
                       && r.result.value == Overlay(s.docs[i], NormalisePatch(patch))
                       && |r.store.docs| == |s.docs| && r.store.docs[i] == r.result.value
                       && forall j :: 0 <= j < |s.docs| && j != i ==> r.store.docs[j] == s.docs[j]
    ensures s.outage.None? && Valid(s) && Resolve(svc, s, term).Returned? && !r.result.Ok? ==> r.result.BadRequest?
    ensures s.outage.None? && Valid(s) ==>
              (r.result.Ok? <==> var found := Resolve(svc, s, term);
                                 found.Returned? && forall d :: d in s.docs && d != found.value ==>
                                                      Apart(d, Overlay(found.value, NormalisePatch(patch))))
    ensures Valid(s) ==> Valid(r.store)
  {
    var dto := NormalisePatch(patch);
    match Resolve(svc, s, term)
    case Threw(e) => Response(HandleError(e), s)
    case Returned(p) =>
      assert s.outage.None? && Valid(s) ==> (UpdateOne(s, p.id, dto).Failed? <==>
                                              exists d :: d in s.docs && d != p && !Apart(d, Overlay(p, dto))) by {
        if s.outage.None? && Valid(s) { UpdateOneClash(s, p, dto); }
      }
      match UpdateOne(s, p.id, dto)
      case Failed(err) => Response(HandleError(DatabaseError(err.code)), s)
      case Done(after) =>
        assert Valid(s) ==> exists i :: 0 <= i < |s.docs| && s.docs[i] == p && Matches(svc, term, s.docs[i])
                                        && after.docs[i] == Overlay(p, dto)
                                        && forall j :: 0 <= j < |s.docs| && j != i ==> after.docs[j] == s.docs[j] by {
          if Valid(s) {
            var i :| 0 <= i < |s.docs| && s.docs[i] == p;
            forall j | 0 <= j < |s.docs| && j != i ensures after.docs[j] == s.docs[j] {
              assert Apart(s.docs[i], s.docs[j]);
            }
          }
        }
        Response(Ok(Overlay(p, dto)), after)
  }

  /** remove: delete the document whose `_id` is the cast id (no tiered
      lookup); NotFound naming the id as given when there is none. Mongoose
      casts the filter's `_id` before the query is sent, so an id it cannot
      cast escapes as a CastError, whatever the store holds. */
  function Remove(svc: Service, s: Store, id: ObjectId): (r: Response<()>)
    ensures !svc.isValidObjectId(id) ==> r.result.InternalError? && r.store == s
    ensures s.outage.Some? ==> r.result.InternalError? && r.store == s
    ensures s.outage.None? && svc.isValidObjectId(id) ==> (r.result.Ok? <==> exists d :: d in s.docs && d.id == svc.castId(id))
    ensures !r.result.Ok? ==> r.store == s
    ensures r.result.NotFound? ==> Mentions(r.result.message, id)
    ensures s.outage.None? && svc.isValidObjectId(id) ==> r.result.Ok? || r.result.NotFound?
    ensures r.result.Ok? ==>
              exists i :: 0 <= i < |s.docs| && s.docs[i].id == svc.castId(id) && r.store.docs == s.docs[..i] + s.docs[i + 1..]
    ensures Valid(s) ==> Valid(r.store)
    ensures r.result.Ok? && Valid(s) ==> forall d :: d in r.store.docs ==> d.id != svc.castId(id)
  {
    if !svc.isValidObjectId(id) then Response(Unhandled(CastFailure(id)), s)
    else
      match DeleteOne(s, svc.castId(id))
      case Failed(err) => Response(Unhandled(DatabaseError(err.code)), s)
      case Done(Deletion(after, deletedCount)) =>
        if deletedCount == 0 then
          MentionsInfix("The pokemon with id ", id, " not exist");
          Response(NotFound("The pokemon with id " + id + " not exist"), s)
        else Response(Ok(()), after)
  }
}
