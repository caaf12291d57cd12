/** ParseMongoIdPipe: the request-layer check that a path parameter is
    shaped like a store identifier. */
module MongoIdPipe {
  import opened Outcomes
  import opened Text
  import PokemonService

  /** The value passes through unchanged when `isValidObjectId` accepts
      it, and is refused as a bad request naming it otherwise. */
  function ParseMongoId(svc: PokemonService.Service, value: string): (r: Result<string>)
    ensures r.Ok? <==> svc.isValidObjectId(value)
    ensures r.Ok? ==> r.value == value
    ensures !r.Ok? ==> r.BadRequest? && Mentions(r.message, value)
  {
    if !svc.isValidObjectId(value) then
      MentionsInfix("This ", value, " not is a valid mongoId");
      BadRequest("This " + value + " not is a valid mongoId")
    else Ok(value)
  }
}
