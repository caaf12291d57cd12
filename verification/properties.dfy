/** Properties relating several service calls. */
module ServiceProperties {
  import opened Outcomes
  import opened Text
  import opened Entity
  import opened DocumentStore
  import opened PokemonService
  import opened MongoIdPipe

  /** Every stored name is lower case. */
  ghost predicate NamesLower(s: Store) {
    forall d :: d in s.docs ==> IsLower(d.name)
  }

  /** create only ever stores a lower-case name. */
  lemma CreateKeepsNamesLower(svc: Service, s: Store, input: CreatePokemon, freshId: ObjectId)
    requires NamesLower(s)
    ensures NamesLower(Create(svc, s, input, freshId).store)
  {
  }

  /** update only ever stores a lower-case name, since a present patch name is lower-cased first. */
  lemma UpdateKeepsNamesLower(svc: Service, s: Store, term: string, patch: UpdatePokemon)
    requires NamesLower(s) && Valid(s)
    ensures NamesLower(Update(svc, s, term, patch).store)
  {
    var dto := NormalisePatch(patch);
    var found := Resolve(svc, s, term);
    if found.Returned? {
      var p := found.value;
      var up := UpdateOne(s, p.id, dto);
      if up.Done? {
        assert Update(svc, s, term, patch).store == up.value;
        forall k | 0 <= k < |up.value.docs| ensures IsLower(up.value.docs[k].name) {
          assert s.docs[k] in s.docs;
          if s.docs[k].id == p.id {
            assert up.value.docs[k] == Overlay(s.docs[k], dto);
          }
        }
      }
    }
  }

  /** A created record is found again by its `no`, written as a decimal numeral. */
  lemma CreateThenFindByNo(svc: Service, s: Store, input: CreatePokemon, freshId: ObjectId)
    requires Valid(s) && input.no >= 0
    requires Create(svc, s, input, freshId).result.Ok?
    ensures var created := Create(svc, s, input, freshId);
            FindOne(svc, created.store, Decimal(input.no)) == Ok(created.result.value)
  {
    var created := Create(svc, s, input, freshId);
    var p := created.result.value;
    var term := Decimal(input.no);
    DecimalRoundTrip(input.no);
    assert p in created.store.docs && ByNo(term, p);
    var r := FindOne(svc, created.store, term);
    ValidUnique(created.store, r.value, p);
  }

  /** A created record is found again by its lower-cased name, provided that
      name neither reads as a number nor is shaped like a store identifier
      (otherwise an earlier tier may answer with another record). */
  lemma CreateThenFindByName(svc: Service, s: Store, input: CreatePokemon, freshId: ObjectId)
    requires Valid(s)
    requires Create(svc, s, input, freshId).result.Ok?
    requires !IsNumeric(Lower(input.name)) && !svc.isValidObjectId(Lower(input.name))
    ensures var created := Create(svc, s, input, freshId);
            FindOne(svc, created.store, Lower(input.name)) == Ok(created.result.value)
  {
    var created := Create(svc, s, input, freshId);
    var p := created.result.value;
    var term := Lower(input.name);
    assert p in created.store.docs && ByName(term, p);
    var r := FindOne(svc, created.store, term);
    assert ByName(term, r.value);
    ValidUnique(created.store, r.value, p);
  }

  /** A second create with the same `no`, or with a name equal up to letter
      case, is a bad request and leaves the store alone. */
  lemma CreateDuplicateRejected(svc: Service, s: Store, first: CreatePokemon, id1: ObjectId, second: CreatePokemon, id2: ObjectId)
    requires Create(svc, s, first, id1).result.Ok?
    requires second.no == first.no || Lower(second.name) == Lower(first.name)
    ensures var s1 := Create(svc, s, first, id1).store;
            Create(svc, s1, second, id2) == Response(BadRequest("The pokemon exist, E11000 duplicate key error"), s1)
  {
    var c1 := Create(svc, s, first, id1);
    var p := c1.result.value;
    assert p in c1.store.docs && !Apart(p, NewDocument(second, id2));
  }

  /** An update whose patch would give the resolved record the `no` or the
      (lower-cased) name of another record is a bad request and leaves the
      store alone. */
  lemma UpdateDuplicateRejected(svc: Service, s: Store, term: string, patch: UpdatePokemon, other: Pokemon)
    requires Valid(s) && s.outage.None?
    requires Resolve(svc, s, term).Returned?
    requires other in s.docs && other != Resolve(svc, s, term).value
    requires (patch.no.Some? && patch.no.value == other.no) || (patch.name.Some? && Lower(patch.name.value) == other.name)
    ensures Update(svc, s, term, patch) == Response(BadRequest("The pokemon exist, E11000 duplicate key error"), s)
  {
    var p := Resolve(svc, s, term).value;
    var dto := NormalisePatch(patch);
    assert !Apart(other, Overlay(p, dto));
    UpdateOneClash(s, p, dto);
  }

  /** Name lookup never lower-cases the term: in a store of lower-case names
      a term with an upper-case letter that is not id-shaped is not found. */
  lemma FindOneIsCaseSensitive(svc: Service, s: Store, term: string)
    requires NamesLower(s) && s.outage.None?
    requires !IsLower(term) && !svc.isValidObjectId(term)
    ensures FindOne(svc, s, term).NotFound?
  {
    var k :| 0 <= k < |term| && IsUpper(term[k]);
    assert !IsDigit(term[k]);
    forall d | d in s.docs ensures !Matches(svc, term, d) {
      assert IsLower(d.name);
    }
  }

  /** findAll against an independent description, by position: entry `i`
      of the answer is the stored record of rank `offset + i` by `no`,
      without its version key. */
  lemma FindAllByRank(svc: Service, s: Store, page: Pagination)
    requires Valid(s) && s.outage.None?
    ensures var r := FindAll(svc, s, page);
            && r.Ok?
            && forall i :: 0 <= i < |r.value| ==>
                 exists d :: d in s.docs && Rank(s.docs, d.no) == PageBounds(svc, page).1 + i && r.value[i] == Strip(d)
  {
    var limit := PageBounds(svc, page).0;
    var offset := PageBounds(svc, page).1;
    var sorted := SortByNo(s.docs);
    var pg := Page(sorted, offset, limit);
    var rs := StripAll(pg);
    FindAllListing(svc, s, page);
    assert NosDistinct(s.docs);
    SortAscending(s.docs);
    forall i | 0 <= i < |rs| ensures exists d :: d in s.docs && Rank(s.docs, d.no) == offset + i && rs[i] == Strip(d) {
      PagePosition(s.docs, sorted, limit, offset, i);
      assert rs[i] == Strip(pg[i]);
    }
  }

  /** findAll against an independent description, by membership: a stored
      record is listed exactly when its rank by `no` lies in the window
      that starts at `offset` and is `limit` wide. */
  lemma FindAllWindow(svc: Service, s: Store, page: Pagination, d: Pokemon)
    requires Valid(s) && s.outage.None? && d in s.docs
    ensures var r := FindAll(svc, s, page);
            r.Ok? && (Strip(d) in r.value <==> InWindow(Rank(s.docs, d.no), PageBounds(svc, page).0, PageBounds(svc, page).1))
  {
    var limit := PageBounds(svc, page).0;
    var offset := PageBounds(svc, page).1;
    var sorted := SortByNo(s.docs);
    var pg := Page(sorted, offset, limit);
    var rs := StripAll(pg);
    FindAllListing(svc, s, page);
    assert NosDistinct(s.docs);
    SortAscending(s.docs);
    PageWindow(s.docs, sorted, limit, offset, d);
    if Strip(d) in rs {
      var i :| 0 <= i < |rs| && rs[i] == Strip(d);
      PagePosition(s.docs, sorted, limit, offset, i);
      StripInjective(s, d, pg[i]);
    }
    if d in pg {
      var i :| 0 <= i < |pg| && pg[i] == d;
      assert rs[i] == Strip(d);
    }
  }

  /** On a reachable store findAll is the projected page of the sorted collection. */
  lemma FindAllListing(svc: Service, s: Store, page: Pagination)
    requires s.outage.None?
    ensures FindAll(svc, s, page) == Ok(StripAll(Page(SortByNo(s.docs), PageBounds(svc, page).1, PageBounds(svc, page).0)))
  {
  }

  /** remove deletes by `_id` once: repeating it on the same id answers
      NotFound and leaves the store as the first call left it. */
  lemma RemoveTwice(svc: Service, s: Store, id: ObjectId)
    requires Valid(s) && Remove(svc, s, id).result.Ok?
    ensures var s1 := Remove(svc, s, id).store;
            Remove(svc, s1, id).result.NotFound? && Remove(svc, s1, id).store == s1
  {
  }

  /** After a successful remove no lookup term resolves to the removed `_id`. */
  lemma RemoveThenFindOne(svc: Service, s: Store, id: ObjectId, term: string)
    requires Valid(s) && Remove(svc, s, id).result.Ok?
    ensures var r := FindOne(svc, Remove(svc, s, id).store, term);
            r.Ok? ==> r.value.id != svc.castId(id)
  {
  }

  /** When the id pipe guards the route, remove never meets a CastError: on
      a reachable store it deletes exactly when some record has the cast id,
      and answers NotFound otherwise. */
  lemma PipedRemove(svc: Service, s: Store, id: string)
    requires s.outage.None? && ParseMongoId(svc, id).Ok?
    ensures var r := Remove(svc, s, ParseMongoId(svc, id).value);
            (r.result.Ok? <==> exists d :: d in s.docs && d.id == svc.castId(id)) && (r.result.Ok? || r.result.NotFound?)
  {
  }

  /** findOne finds a stored record by any spelling of its `_id` that
      mongoose casts to it, as long as no record has the term's `no`. */
  lemma FindOneByIdSpelling(svc: Service, s: Store, term: string, d: Pokemon)
    requires Valid(s) && s.outage.None? && d in s.docs
    requires svc.isValidObjectId(term) && svc.castId(term) == d.id
    requires forall e :: e in s.docs ==> !ByNo(term, e)
    ensures FindOne(svc, s, term) == Ok(d)
  {
    var r := Resolve(svc, s, term);
    assert ById(svc, term, d);
    ValidUnique(s, r.value, d);
  }
}
