# Pokedex service model

A Dafny model of `PokemonService`, the NestJS service of a Pokedex REST API
backed by a MongoDB collection. The service creates Pokemon with a
lower-cased name, lists them a page at a time in ascending `no` order,
looks one up by a term that may be its `no`, its Mongo id or its name,
patches one, deletes one by id, and turns store errors into HTTP error
classes.

The model is functional. The collection is a value (`DocumentStore.Store`):
the documents in natural order plus an optional outage code that makes
every store call fail. Every operation takes the store and returns a
`Result` (Ok / NotFound / BadRequest / InternalError). The operations that
write also return the store they leave behind. Exceptions raised inside the
service are kept apart from what the caller sees
(`PokemonService.Exception`). That is how the model reproduces a quirk of
`update`: the lookup's NotFoundException is caught by `update`'s own
`catch` and becomes an internal error.

Modules:

- `Outcomes`: `Option` and the caller-facing `Result`.
- `Text`: ASCII lower-casing, and the reading of a digit string as a number.
  The decimal-numeral round trip is proved here.
- `Entity`: the Pokemon document, the create and update payloads, the
  spread overlay `{...a, ...b}` and the `-__v` projection.
- `DocumentStore`: the collection and its unique indexes on `_id`, `no` and
  `name` (E11000 = 11000). Also insert, first-match lookup, `updateOne`,
  `deleteOne`, sorting by `no`, paging, and the rank of a document by `no`.
- `PokemonService`: `Create`, `FindAll`, `Resolve`/`FindOne`, `Update`,
  `Remove`, `HandleError`.
- `MongoIdPipe`: the path-parameter check in front of `remove`.
- `ServiceProperties`: properties that relate several calls.

Behaviour of the code worth knowing, which the model keeps:

- In `update`, the call to `findOne` sits inside the `try`. A term that
  resolves to nothing therefore gives InternalError, not NotFound
  (`PokemonService.Update` states `!r.result.NotFound?`).
- A lookup by name after `create` is guaranteed to find the new record when
  the lower-cased name neither reads as a number nor is shaped like a Mongo
  id. If it does, an earlier lookup tier may answer with a different record.
  `ServiceProperties.CreateThenFindByName` states the condition.
- A `limit` of 0 keeps the whole remainder of the collection, as MongoDB's
  `limit(0)` does.
- `remove` passes the id straight to `deleteOne`. Mongoose casts it to an
  ObjectId first, so an id that is not id-shaped escapes as a CastError
  (an internal error), not NotFound. When the id pipe guards the route,
  such ids never reach `remove` (`ServiceProperties.PipedRemove`).
- Ids are never compared as raw strings. `findById` and `deleteOne` cast the
  string to an ObjectId first, so every spelling that casts to a stored id
  (upper-case hex included) reaches that record. The model carries the cast
  as `Service.castId`.

## Model

| member | source | states |
|---|---|---|
| Text.Lower | src/pokemon/pokemon.service.ts:31 | the stored form of a name has no upper-case letter, has the same length, equals the input up to letter case, and leaves an already lower-case name unchanged |
| Text.DecimalRoundTrip | src/pokemon/pokemon.service.ts:54-55 | writing a natural `no` as a decimal numeral and reading it back with the numeric coercion gives that `no`, so the `no` tier can reach every natural `no` |
| Entity.Overlay | src/pokemon/pokemon.service.ts:80-82 | the spread `{ ...pokemon, ...patch }` and the flat `$set`: every field the patch carries overrides the record's, every other field keeps its value, and `_id` and the version key are untouched |
| Entity.Strip | src/pokemon/pokemon.service.ts:48 | the projection `-__v` removes the version key and keeps every other field |
| DocumentStore.Insert | src/pokemon/pokemon.service.ts:33 | the insert succeeds exactly when no stored document shares `_id`, `no` or `name` with the new one, and then appends exactly that document; a clash fails with code 11000; the unique indexes keep holding |
| DocumentStore.UpdateOne | src/pokemon/pokemon.service.ts:80 | only the document with the given `_id` changes, and it gets the patch's fields; the update fails with 11000 exactly when the patched document would clash with another; the unique indexes keep holding |
| DocumentStore.UpdateOneClash | src/pokemon/pokemon.service.ts:80 | on a reachable store whose unique indexes hold, updating a stored record fails exactly when the patched record shares `_id`, `no` or `name` with some other stored record |
| DocumentStore.DeleteOne | src/pokemon/pokemon.service.ts:94 | given the cast id, deletedCount is 0 exactly when no document has that `_id`, and then the store is unchanged; otherwise exactly one document with that `_id` is removed and no document with that `_id` remains |
| DocumentStore.SortByNo | src/pokemon/pokemon.service.ts:47 | the sorted collection is a permutation of the stored documents, in non-decreasing `no` order |
| DocumentStore.Page | src/pokemon/pokemon.service.ts:45-46 | a page has `min(limit, n - offset)` elements (the whole remainder when limit is 0) and its element `i` is element `offset + i` of its input |
| DocumentStore.Find | src/pokemon/pokemon.service.ts:44-48 | the listing carries no version key, every entry is a stored document, entries are ordered by `no`, and the count is fixed by limit and offset |
| DocumentStore.SortAscending | src/pokemon/pokemon.service.ts:47 | when no two stored documents share a `no`, the sorted collection is strictly ascending |
| DocumentStore.PagePosition | src/pokemon/pokemon.service.ts:44-48 | entry `i` of a page of the sorted collection is a stored document whose rank by `no` is `offset + i` |
| DocumentStore.PageWindow | src/pokemon/pokemon.service.ts:44-48 | a stored document is on a page of the sorted collection exactly when its rank by `no` lies in the window that starts at `offset` and is `limit` wide |
| DocumentStore.FindFirst | src/pokemon/pokemon.service.ts:55-61 | each single-field lookup returns a stored document that the filter accepts, and finds nothing exactly when no stored document is accepted |
| PokemonService.HandleError | src/pokemon/pokemon.service.ts:101-105 | an error whose code is 11000 becomes BadRequest, every other error (including one with no code) becomes InternalError, and nothing else can come out |
| PokemonService.Create | src/pokemon/pokemon.service.ts:30-38 | on success the store grows by exactly the new record with its lower-cased name; create succeeds exactly when the store is up and nothing clashes; on failure the store is unchanged and the result is BadRequest for a clash, or the classification of the outage code |
| PokemonService.FindAll | src/pokemon/pokemon.service.ts:40-50 | a reachable store always gives a listing without version keys, of the size fixed by the (defaulted) limit and offset, of stored documents, in strictly ascending `no` order when the unique indexes hold; an unreachable one gives InternalError |
| PokemonService.Resolve | src/pokemon/pokemon.service.ts:52-69 | a numeric term that matches a `no` resolves by `no`; otherwise an id-shaped term whose cast matches an `_id` resolves by id; otherwise only an exact, case-sensitive name match counts; NotFoundException naming the term is raised exactly when no attempted tier matches |
| PokemonService.FindOne | src/pokemon/pokemon.service.ts:52-69 | the answer is a stored record that the term matches by `no`, by cast id or by name; NotFound, with a message containing the term, comes exactly when no record matches |
| PokemonService.NormalisePatch | src/pokemon/pokemon.service.ts:73-74 | a present name in the patch is lower-cased, and `no` and the other fields are left as given |
| PokemonService.Update | src/pokemon/pokemon.service.ts:71-88 | update never answers NotFound: an unresolved term gives InternalError; on a reachable store whose unique indexes hold, update succeeds exactly when the term resolves and the resolved record overlaid with the normalised patch clashes with no other record, and a resolved term that fails is a BadRequest; every failure leaves the store unchanged and is BadRequest or InternalError; on success the answer is the record findOne resolves, overlaid with the normalised patch, only that record changes in the store, and its name is the lower-cased patch name |
| PokemonService.Remove | src/pokemon/pokemon.service.ts:90-99 | an id mongoose cannot cast is an internal error; otherwise, on a reachable store, remove succeeds exactly when some record's `_id` is the cast id, deletes one such record and keeps the others in order, and else gives NotFound naming the id as given; every failure leaves the store unchanged |
| MongoIdPipe.ParseMongoId | src/common/pipes/parse-mongo-id.pipe.ts:6-13 | the value passes unchanged exactly when it is id-shaped; otherwise the result is BadRequest naming the value |
| ServiceProperties.CreateKeepsNamesLower | src/pokemon/pokemon.service.ts:30-34 | create keeps every stored name lower case |
| ServiceProperties.UpdateKeepsNamesLower | src/pokemon/pokemon.service.ts:73-80 | update keeps every stored name lower case, because a present patch name is lower-cased before the merge (an empty name is already lower case) |
| ServiceProperties.CreateThenFindByNo | src/pokemon/pokemon.service.ts:30-62 | a record that was just created is what findOne answers for the decimal numeral of its `no` |
| ServiceProperties.CreateThenFindByName | src/pokemon/pokemon.service.ts:30-62 | a record that was just created is what findOne answers for its lower-cased name, when that name is neither numeric nor id-shaped |
| ServiceProperties.CreateDuplicateRejected | src/pokemon/pokemon.service.ts:30-37 | a second create with the same `no`, or with a name equal up to letter case, is a BadRequest and leaves the store unchanged |
| ServiceProperties.UpdateDuplicateRejected | src/pokemon/pokemon.service.ts:76-86 | an update that would give the resolved record the `no` or the lower-cased name of another record is a BadRequest and leaves the store unchanged |
| ServiceProperties.FindOneByIdSpelling | src/pokemon/pokemon.service.ts:54-59 | findOne answers a stored record for any id-shaped spelling that casts to its `_id` (upper-case hex included), provided no record has the term's `no` |
| ServiceProperties.FindOneIsCaseSensitive | src/pokemon/pokemon.service.ts:54-62 | under the digit-only reading of `+term` (see `Text.IsNumeric` under Left out), when all stored names are lower case, a term that contains an upper-case letter and is not id-shaped is NotFound |
| ServiceProperties.FindAllByRank | src/pokemon/pokemon.service.ts:40-49 | findAll, described without sorting: entry `i` is the stored record of rank `offset + i` by `no`, without its version key |
| ServiceProperties.FindAllWindow | src/pokemon/pokemon.service.ts:40-49 | a stored record is listed by findAll exactly when its rank by `no` lies in the window that starts at the (defaulted) offset and is the (defaulted) limit wide |
| ServiceProperties.RemoveTwice | src/pokemon/pokemon.service.ts:94-97 | a second remove of the same id gives NotFound and changes nothing |
| ServiceProperties.RemoveThenFindOne | src/pokemon/pokemon.service.ts:90-98 | after a successful remove, no lookup term resolves to a record whose `_id` is the removed (cast) id |
| ServiceProperties.PipedRemove | src/pokemon/pokemon.service.ts:90-98 | when the id pipe (src/common/pipes/parse-mongo-id.pipe.ts) guards the route, remove on a reachable store deletes exactly when some record's `_id` is the cast id and otherwise answers NotFound, never an internal error |

## Left out

- `PokemonService.Create`: `freshId` stands for the ObjectId the driver generates. Its freshness and its shape are not assumed; the unique `_id` index rejects a reused one.
- Asynchrony, NestJS dependency injection and `ConfigService`: `defaultLimit` is a field of `PokemonService.Service`, read once as in the constructor.
- Module wiring in `src/app.module.ts` (config loading, static files, the Mongo connection) has no behaviour to state.
- `isValidObjectId` and the ObjectId cast belong to mongoose and are not visible. They are uninterpreted function-valued fields of `Service` (`isValidObjectId`, `castId`). `isValidObjectId` is shared by `Resolve`, `Remove` and `ParseMongoId`, and `castId` by `Resolve` and `Remove`. The model does not state how the cast normalises a spelling (for example upper-case to lower-case hex, or a 12-character string to its hex form).
- `DocumentStore.DeleteOne`: takes the id already cast. `PokemonService.Remove` applies `castId`, and decides whether the cast succeeds with `isValidObjectId`. The two agree on 24-character hex strings and are assumed to agree elsewhere.
- `PokemonService.Remove`: a CastError and a store outage both surface as the framework's generic internal error; the text of the CastError is not modelled.
- `Text.IsNumeric`: JavaScript's `+term` is restricted to non-empty runs of decimal digits, read as naturals. Signs, decimals, exponents, hex, surrounding whitespace and `+"" === 0` are not modelled, because they are floating-point coercion rules.
- `ServiceProperties.FindOneIsCaseSensitive`: holds only under that digit-only reading; in the code `+"1E3"` is 1000 and `+"0XFF"` is 255, so such a term can find a record by `no`.
- `Text.Lower`: the model lowers only the ASCII letters A-Z. Other Unicode case mappings and locale rules are not modelled.
- Store failures are a single outage code that every call fails with. A store that fails part-way through a call sequence is not modelled. An example is `findOne` succeeding inside `update` and then `updateOne` failing with a non-duplicate error. `HandleError` classifies any code the same way.
- `updateOne` is modelled as a flat field overwrite. Nested merges and the ignored `{ new: true }` option are left out. The version key is left unchanged, as a plain `$set` leaves it.
- `Entity.Pokemon`, `Text.NumericValue`: `no` and the number read from a term are unbounded integers. In the code both are IEEE doubles, so they are exact only up to 2^53; beyond that, `+term` rounds (for example `+"9007199254740993"` reads as 9007199254740992) and the `no` tier can match a record whose `no` differs from the written digits. Integer widths are not modelled.
- `Entity.Fields`: the payload's other fields may not use the keys `_id`, `no`, `name` or `__v`, since in a JavaScript object those properties are the document's own fields.
- `limit` and `offset` are naturals. The validation of the pagination payload is not part of the model, so negative values are excluded by type.
- Exact message text: the NotFound messages and the pipe's BadRequest message are kept, and each is proved to contain the term or id. The BadRequest from `handleError` carries a fixed text instead of the printed driver error.
- Concurrent requests are out of scope. Every call is one atomic step on a store value.
