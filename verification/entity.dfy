/** The Pokemon document and the two payloads the service accepts. */
module Entity {
  import opened Outcomes

  /** The store identifier (`_id`), compared as its string form. */
  type ObjectId = string

  /** An opaque payload value the service never inspects. */
  datatype Value = Num(int) | Str(string) | Flag(bool) | Null

  /** The keys the document itself owns: `_id`, `no`, `name` and `__v`. */
  const Reserved: set<string> := {"_id", "no", "name", "__v"}

  /** Payload fields other than `no` and `name`: a JavaScript object has one
      property per key, so none of these may shadow a reserved key. */
  type Fields = f: map<string, Value> | f.Keys !! Reserved witness map[]

  /** A stored document: `_id`, `no`, `name`, the other fields and the
      version key `__v` (absent once a projection has removed it). */
  datatype Pokemon = Pokemon(id: ObjectId, no: int, name: string, extra: Fields, version: Option<nat>)

  /** The create payload: `no` and `name` are required. */
  datatype CreatePokemon = CreatePokemon(no: int, name: string, extra: Fields)

  /** The update payload: every field is optional. */
  datatype UpdatePokemon = UpdatePokemon(no: Option<int>, name: Option<string>, extra: Fields)

  /** `{ ...p, ...patch }`: every field the patch carries overrides the
      document's, every other field keeps its value. */
  function Overlay(p: Pokemon, patch: UpdatePokemon): (r: Pokemon)
    ensures r.id == p.id && r.version == p.version
    ensures r.no == patch.no.GetOr(p.no)
    ensures r.name == patch.name.GetOr(p.name)
    ensures r.extra.Keys == p.extra.Keys + patch.extra.Keys
    ensures forall k :: k in patch.extra ==> r.extra[k] == patch.extra[k]
    ensures forall k :: k in p.extra && k !in patch.extra ==> r.extra[k] == p.extra[k]
  {
    Pokemon(p.id, patch.no.GetOr(p.no), patch.name.GetOr(p.name), p.extra + patch.extra, p.version)
  }

  /** The projection `select('-__v')`: everything but the version key. */
  function Strip(p: Pokemon): (r: Pokemon)
    ensures r.version.None?
    ensures r.id == p.id && r.no == p.no && r.name == p.name && r.extra == p.extra
  {
    p.(version := None)
  }
}
