/** The document store the service consumes: one collection with unique
    indexes on `_id`, `no` and `name`, modelled as a value. */
module DocumentStore {
  import opened Outcomes
  import opened Entity

  /** MongoDB's error code for a unique-index violation (E11000). */
  const DuplicateKey: int := 11000

  /** An error raised by the store, carrying the driver's error code. */
  datatype StoreError = StoreError(code: int)

  datatype Reply<+T> = Done(value: T) | Failed(error: StoreError)

  /** The documents in natural order, and the error code every call fails
      with while the database is unreachable. */
  datatype Store = Store(docs: seq<Pokemon>, outage: Option<int>)

  /** The outcome of `deleteOne`: the collection afterwards and `deletedCount`. */
  datatype Deletion = Deletion(after: Store, deletedCount: nat)

  /** Two documents that no unique index keeps apart clash. */
  predicate Apart(a: Pokemon, b: Pokemon) {
    a.id != b.id && a.no != b.no && a.name != b.name
  }

  /** The unique indexes hold: any two stored documents differ in `_id`,
      `no` and `name`. */
  ghost predicate Valid(s: Store) {
    forall i, j :: 0 <= i < |s.docs| && 0 <= j < |s.docs| && i != j ==> Apart(s.docs[i], s.docs[j])
  }

  /** The position of the first element satisfying `p`, scanning in natural order. */
  function FirstIndex<T>(xs: seq<T>, p: T -> bool): (r: Option<nat>)
    ensures r.Some? ==> r.value < |xs| && p(xs[r.value])
    ensures r.Some? ==> forall j :: 0 <= j < r.value ==> !p(xs[j])
    ensures r.None? ==> forall j :: 0 <= j < |xs| ==> !p(xs[j])
    decreases |xs|
  {
    if |xs| == 0 then None
    else if p(xs[0]) then Some(0)
    else
      match FirstIndex(xs[1..], p)
      case None => None
      case Some(i) => Some(i + 1)
  }

  /** `findOne(filter)` over a reachable collection: the first document the
      filter accepts, and none exactly when the filter accepts none. */
  function FindFirst(docs: seq<Pokemon>, p: Pokemon -> bool): (r: Option<Pokemon>)
    ensures r.Some? ==> r.value in docs && p(r.value)
    ensures r.None? <==> forall d :: d in docs ==> !p(d)
  {
    match FirstIndex(docs, p)
    case None => None
    case Some(i) => Some(docs[i])
  }

  /** In a valid store at most one document carries a given `_id`, `no` or `name`. */
  lemma ValidUnique(s: Store, a: Pokemon, b: Pokemon)
    requires Valid(s) && a in s.docs && b in s.docs
    requires a.id == b.id || a.no == b.no || a.name == b.name
    ensures a == b
  {
    var i :| 0 <= i < |s.docs| && s.docs[i] == a;
    var j :| 0 <= j < |s.docs| && s.docs[j] == b;
  }

  /** `insertOne(doc)`: appended when no stored document shares its `_id`,
      `no` or `name`, rejected with E11000 otherwise; the unique indexes
      keep holding. */
  function Insert(s: Store, doc: Pokemon): (r: Reply<Store>)
    ensures s.outage.Some? ==> r == Failed(StoreError(s.outage.value))
    ensures s.outage.None? ==> (r.Failed? <==> exists d :: d in s.docs && !Apart(d, doc))
    ensures s.outage.None? && r.Failed? ==> r.error.code == DuplicateKey
    ensures r.Done? ==> r.value == s.(docs := s.docs + [doc])
    ensures r.Done? && Valid(s) ==> Valid(r.value)
  {
    if s.outage.Some? then Failed(StoreError(s.outage.value))
    else if exists d :: d in s.docs && !Apart(d, doc) then Failed(StoreError(DuplicateKey))
    else
      assert forall i :: 0 <= i < |s.docs| ==> Apart(s.docs[i], doc) by {
        forall i | 0 <= i < |s.docs| ensures Apart(s.docs[i], doc) {
          assert s.docs[i] in s.docs;
        }
      }
      Done(s.(docs := s.docs + [doc]))
  }

  /** `updateOne({_id: id}, patch)` as a flat overwrite: the document with
      that `_id` gets the patch's fields and nothing else changes; rejected
      with E11000 when the patched document would clash with another. */
  function UpdateOne(s: Store, id: ObjectId, patch: UpdatePokemon): (r: Reply<Store>)
    ensures s.outage.Some? ==> r == Failed(StoreError(s.outage.value))
    ensures s.outage.None? && r.Failed? ==> r.error.code == DuplicateKey
    ensures r.Done? ==> r.value.outage == s.outage && |r.value.docs| == |s.docs|
    ensures r.Done? ==> forall i :: 0 <= i < |s.docs| && s.docs[i].id != id ==> r.value.docs[i] == s.docs[i]
    ensures r.Done? && Valid(s) ==>
              forall i :: 0 <= i < |s.docs| && s.docs[i].id == id ==> r.value.docs[i] == Overlay(s.docs[i], patch)
    ensures s.outage.None? && Valid(s) ==>
              (r.Failed? <==> exists i, j :: 0 <= i < |s.docs| && 0 <= j < |s.docs| && i != j && s.docs[i].id == id
                                             && !Apart(s.docs[j], Overlay(s.docs[i], patch)))
    ensures r.Done? && Valid(s) ==> Valid(r.value)
  {
    if s.outage.Some? then Failed(StoreError(s.outage.value))
    else
      match FirstIndex(s.docs, (d: Pokemon) => d.id == id)
      case None => Done(s)
      case Some(i) =>
        var merged := Overlay(s.docs[i], patch);
        if exists j :: 0 <= j < |s.docs| && j != i && !Apart(s.docs[j], merged) then
          Failed(StoreError(DuplicateKey))
        else
          Done(s.(docs := s.docs[i := merged]))
  }

  /** On a reachable valid store, updating a stored document fails exactly
      when its patched form clashes with some other stored document. */
  lemma UpdateOneClash(s: Store, p: Pokemon, patch: UpdatePokemon)
    requires s.outage.None? && Valid(s) && p in s.docs
    ensures UpdateOne(s, p.id, patch).Failed? <==> exists d :: d in s.docs && d != p && !Apart(d, Overlay(p, patch))
  {
    var i :| 0 <= i < |s.docs| && s.docs[i] == p;
    if UpdateOne(s, p.id, patch).Failed? {
      var i', j :| 0 <= i' < |s.docs| && 0 <= j < |s.docs| && i' != j && s.docs[i'].id == p.id
                   && !Apart(s.docs[j], Overlay(s.docs[i'], patch));
      ValidUnique(s, s.docs[i'], p);
      assert Apart(s.docs[i'], s.docs[j]);
    } else {
      forall d | d in s.docs && d != p ensures Apart(d, Overlay(p, patch)) {
        var j :| 0 <= j < |s.docs| && s.docs[j] == d;
      }
    }
  }

  /** `deleteOne({_id: id})` with `id` already cast to its stored form:
      removes the first document with that `_id` and reports how many were
      removed (0 or 1). */
  function DeleteOne(s: Store, id: ObjectId): (r: Reply<Deletion>)
    ensures s.outage.Some? ==> r == Failed(StoreError(s.outage.value))
    ensures s.outage.None? ==> r.Done?
    ensures r.Done? ==> r.value.deletedCount <= 1 && r.value.after.outage == s.outage
    ensures r.Done? ==> (r.value.deletedCount == 0 <==> forall d :: d in s.docs ==> d.id != id)
    ensures r.Done? && r.value.deletedCount == 0 ==> r.value.after == s
    ensures r.Done? && r.value.deletedCount == 1 ==>
              exists i :: 0 <= i < |s.docs| && s.docs[i].id == id && r.value.after.docs == s.docs[..i] + s.docs[i + 1..]
    ensures r.Done? && Valid(s) ==> Valid(r.value.after)
    ensures r.Done? && Valid(s) ==> forall d :: d in r.value.after.docs ==> d.id != id
  {
    if s.outage.Some? then Failed(StoreError(s.outage.value))
    else
      match FirstIndex(s.docs, (d: Pokemon) => d.id == id)
      case None => Done(Deletion(s, 0))
      case Some(i) => Done(Deletion(s.(docs := s.docs[..i] + s.docs[i + 1..]), 1))
  }

  /** Non-decreasing by `no`. */
  predicate SortedByNo(t: seq<Pokemon>) {
    forall i, j :: 0 <= i < j < |t| ==> t[i].no <= t[j].no
  }

  /** Strictly increasing by `no`. */
  predicate AscendingByNo(t: seq<Pokemon>) {
    forall i, j :: 0 <= i < j < |t| ==> t[i].no < t[j].no
  }

  /** No two positions hold the same `no`. */
  ghost predicate NosDistinct(t: seq<Pokemon>) {
    forall i, j :: 0 <= i < j < |t| ==> t[i].no != t[j].no
  }

  /** Places `d` into a sequence sorted by `no`. */
  function InsertByNo(d: Pokemon, t: seq<Pokemon>): (r: seq<Pokemon>)
    requires SortedByNo(t)
    ensures SortedByNo(r)
    ensures multiset(r) == multiset(t) + multiset{d}
    ensures |r| == |t| + 1
    decreases |t|
  {
    if |t| == 0 || d.no <= t[0].no then
      [d] + t
    else
      var rest := InsertByNo(d, t[1..]);
      assert t == [t[0]] + t[1..];
      assert forall j :: 0 <= j < |rest| ==> t[0].no <= rest[j].no by {
        forall j | 0 <= j < |rest| ensures t[0].no <= rest[j].no {
          assert rest[j] in multiset(rest);
          if rest[j] != d {
            assert rest[j] in multiset(t[1..]);
            var k :| 0 <= k < |t[1..]| && t[1..][k] == rest[j];
            assert t[k + 1] == rest[j];
          }
        }
      }
      [t[0]] + rest
  }

  lemma ConsAscending(x: Pokemon, u: seq<Pokemon>)
    requires AscendingByNo(u)
    requires forall j :: 0 <= j < |u| ==> x.no < u[j].no
    ensures AscendingByNo([x] + u)
  {
    var r := [x] + u;
    forall i, j | 0 <= i < j < |r| ensures r[i].no < r[j].no {
      assert r[j] == u[j - 1];
      if i > 0 {
        assert r[i] == u[i - 1];
      }
    }
  }

  /** Inserting a fresh ordinal into a strictly ascending sequence keeps it strictly ascending. */
  lemma {:induction false} InsertAscending(d: Pokemon, t: seq<Pokemon>)
    requires AscendingByNo(t)
    requires forall e :: e in t ==> e.no != d.no
    ensures AscendingByNo(InsertByNo(d, t))
    decreases |t|
  {
    if |t| == 0 || d.no <= t[0].no {
      if |t| > 0 {
        assert t[0] in t;
      }
      ConsAscending(d, t);
    } else {
      var rest := InsertByNo(d, t[1..]);
      assert t == [t[0]] + t[1..];
      forall e | e in t[1..] ensures e.no != d.no {
        assert e in t;
      }
      InsertAscending(d, t[1..]);
      forall j | 0 <= j < |rest| ensures t[0].no < rest[j].no {
        assert rest[j] in multiset(rest);
        if rest[j] != d {
          assert rest[j] in multiset(t[1..]);
          var k :| 0 <= k < |t[1..]| && t[1..][k] == rest[j];
          assert t[k + 1] == rest[j];
        }
      }
      ConsAscending(t[0], rest);
    }
  }

  /** `sort({no: 1})`: a permutation of the collection in ascending `no`
      order, strictly ascending when no two documents share a `no`. */
  function SortByNo(docs: seq<Pokemon>): (r: seq<Pokemon>)
    ensures multiset(r) == multiset(docs)
    ensures |r| == |docs|
    ensures SortedByNo(r)
    decreases |docs|
  {
    if |docs| == 0 then []
    else
      assert docs == [docs[0]] + docs[1..];
      InsertByNo(docs[0], SortByNo(docs[1..]))
  }

  /** With distinct ordinals the sorted collection is strictly ascending. */
  lemma {:induction false} SortAscending(docs: seq<Pokemon>)
    requires NosDistinct(docs)
    ensures AscendingByNo(SortByNo(docs))
    decreases |docs|
  {
    if |docs| > 0 {
      var rest := SortByNo(docs[1..]);
      assert docs == [docs[0]] + docs[1..];
      assert NosDistinct(docs[1..]);
      SortAscending(docs[1..]);
      forall e | e in rest ensures e.no != docs[0].no {
        assert e in multiset(docs[1..]);
        var j :| 0 <= j < |docs[1..]| && docs[1..][j] == e;
        assert docs[j + 1] == e;
      }
      InsertAscending(docs[0], rest);
    }
  }

  /** How many of `n` documents a page keeps. */
  function PageSize(n: nat, limit: nat, offset: nat): nat {
    if offset >= n then 0 else if limit == 0 || n - offset <= limit then n - offset else limit
  }

  /** `.skip(offset).limit(limit)`: drop `offset` elements, then keep at
      most `limit` of them; a limit of 0 keeps them all, as in MongoDB. */
  function Page<T>(t: seq<T>, offset: nat, limit: nat): (r: seq<T>)
    ensures |r| == PageSize(|t|, limit, offset)
    ensures forall i :: 0 <= i < |r| ==> r[i] == t[offset + i]
  {
    if offset >= |t| then []
    else if limit == 0 || |t| - offset <= limit then t[offset..]
    else t[offset..offset + limit]
  }

  /** Every element of `rs` is a stored document with its version key removed. */
  ghost predicate ProjectedFrom(rs: seq<Pokemon>, docs: seq<Pokemon>) {
    forall i :: 0 <= i < |rs| ==> rs[i] in StripAll(docs)
  }

  lemma PagePreservesMembership(docs: seq<Pokemon>, sorted: seq<Pokemon>, offset: nat, limit: nat)
    requires multiset(sorted) == multiset(docs)
    ensures forall d :: d in Page(sorted, offset, limit) ==> d in docs
  {
    var page := Page(sorted, offset, limit);
    forall d | d in page ensures d in docs {
      var i :| 0 <= i < |page| && page[i] == d;
      assert sorted[offset + i] in multiset(sorted);
    }
  }

  /** The projection `select('-__v')` applied to every element. */
  function StripAll(t: seq<Pokemon>): (r: seq<Pokemon>)
    ensures |r| == |t|
    ensures forall i :: 0 <= i < |t| ==> r[i] == Strip(t[i])
  {
    seq(|t|, i requires 0 <= i < |t| => Strip(t[i]))
  }

  /** `find().limit(limit).skip(offset).sort({no: 1}).select('-__v')`: stored
      documents without their version key, in ascending `no` order. */
  function Find(s: Store, limit: nat, offset: nat): (r: Reply<seq<Pokemon>>)
    ensures s.outage.Some? ==> r == Failed(StoreError(s.outage.value))
    ensures s.outage.None? ==> r.Done?
    ensures r.Done? ==> forall i :: 0 <= i < |r.value| ==> r.value[i].version.None?
    ensures r.Done? ==> ProjectedFrom(r.value, s.docs)
    ensures r.Done? ==> |r.value| == PageSize(|s.docs|, limit, offset)
    ensures r.Done? ==> forall i, j :: 0 <= i < j < |r.value| ==> r.value[i].no <= r.value[j].no
    ensures r.Done? && NosDistinct(s.docs) ==> forall i, j :: 0 <= i < j < |r.value| ==> r.value[i].no < r.value[j].no
  {
    if s.outage.Some? then Failed(StoreError(s.outage.value))
    else
      var sorted := SortByNo(s.docs);
      var r := StripAll(Page(sorted, offset, limit));
      PageProjected(s.docs, sorted, offset, limit);
      PageOrdered(sorted, offset, limit);
      assert NosDistinct(s.docs) ==> AscendingByNo(sorted) by {
        if NosDistinct(s.docs) {
          SortAscending(s.docs);
        }
      }
      Done(r)
  }

  lemma PageProjected(docs: seq<Pokemon>, sorted: seq<Pokemon>, offset: nat, limit: nat)
    requires multiset(sorted) == multiset(docs)
    ensures ProjectedFrom(StripAll(Page(sorted, offset, limit)), docs)
  {
    var page := Page(sorted, offset, limit);
    var r := StripAll(page);
    PagePreservesMembership(docs, sorted, offset, limit);
    var all := StripAll(docs);
    forall i | 0 <= i < |r| ensures r[i] in all {
      assert page[i] in page;
      var k :| 0 <= k < |docs| && docs[k] == page[i];
      assert all[k] == r[i];
    }
  }

  /** A page of a sorted sequence is sorted, strictly if the sequence is. */
  lemma PageOrdered(sorted: seq<Pokemon>, offset: nat, limit: nat)
    requires SortedByNo(sorted)
    ensures var r := StripAll(Page(sorted, offset, limit));
            forall i, j :: 0 <= i < j < |r| ==> r[i].no <= r[j].no
    ensures var r := StripAll(Page(sorted, offset, limit));
            AscendingByNo(sorted) ==> forall i, j :: 0 <= i < j < |r| ==> r[i].no < r[j].no
  {
    var page := Page(sorted, offset, limit);
    var r := StripAll(page);
    forall i, j | 0 <= i < j < |r|
      ensures r[i].no <= r[j].no
      ensures AscendingByNo(sorted) ==> r[i].no < r[j].no
    {
      assert page[i] == sorted[offset + i] && page[j] == sorted[offset + j];
    }
  }

  /** The distinct ordinals held by `t`. */
  ghost function NosOf(t: seq<Pokemon>): set<int> {
    set d | d in t :: d.no
  }

  /** The position a document with ordinal `n` takes when the collection is
      sorted by `no`: the number of distinct smaller ordinals stored. */
  ghost function Rank(docs: seq<Pokemon>, n: int): nat {
    |set d | d in docs && d.no < n :: d.no|
  }

  lemma {:induction false} AscendingNosCount(u: seq<Pokemon>)
    requires AscendingByNo(u)
    ensures |NosOf(u)| == |u|
    decreases |u|
  {
    if |u| > 0 {
      var v := u[..|u| - 1];
      var last := u[|u| - 1];
      assert u == v + [last];
      assert NosOf(u) == NosOf(v) + {last.no};
      assert last.no !in NosOf(v);
      AscendingNosCount(v);
    }
  }

  /** In a strictly ascending sequence the element at position `i` has rank `i`. */
  lemma RankInAscending(t: seq<Pokemon>, i: nat)
    requires AscendingByNo(t) && i < |t|
    ensures Rank(t, t[i].no) == i
  {
    var below := set d | d in t && d.no < t[i].no :: d.no;
    assert below == NosOf(t[..i]) by {
      forall n | n in below ensures n in NosOf(t[..i]) {
        var d :| d in t && d.no < t[i].no && d.no == n;
        var k :| 0 <= k < |t| && t[k] == d;
        assert t[..i][k] == d;
      }
    }
    AscendingNosCount(t[..i]);
  }

  /** Ranks depend only on which documents are stored, not on their order. */
  lemma RankPermutation(a: seq<Pokemon>, b: seq<Pokemon>, n: int)
    requires multiset(a) == multiset(b)
    ensures Rank(a, n) == Rank(b, n)
  {
    assert forall d :: d in a <==> d in b by {
      forall d ensures d in a <==> d in b {
        assert d in a <==> d in multiset(a);
        assert d in b <==> d in multiset(b);
      }
    }
    assert (set d | d in a && d.no < n :: d.no) == (set d | d in b && d.no < n :: d.no);
  }

  /** In the sorted collection, position `j` holds a stored document of rank `j`. */
  lemma SortedRanks(docs: seq<Pokemon>, sorted: seq<Pokemon>, j: nat)
    requires multiset(sorted) == multiset(docs) && AscendingByNo(sorted) && j < |sorted|
    ensures sorted[j] in docs && Rank(docs, sorted[j].no) == j
  {
    assert sorted[j] in multiset(sorted);
    RankInAscending(sorted, j);
    RankPermutation(sorted, docs, sorted[j].no);
  }

  /** A stored document sits in the sorted collection at the position of its rank. */
  lemma PositionInSorted(docs: seq<Pokemon>, sorted: seq<Pokemon>, d: Pokemon) returns (j: nat)
    requires multiset(sorted) == multiset(docs) && AscendingByNo(sorted) && d in docs
    ensures j < |sorted| && j == Rank(docs, d.no) && sorted[j] == d
  {
    assert d in multiset(docs);
    j :| 0 <= j < |sorted| && sorted[j] == d;
    SortedRanks(docs, sorted, j);
  }

  /** A rank lies inside the window a page selects. */
  predicate InWindow(rank: nat, limit: nat, offset: nat) {
    offset <= rank && (limit == 0 || rank < offset + limit)
  }

  /** A page of the sorted collection holds, at position `i`, the stored
      document of rank `offset + i`. */
  lemma PagePosition(docs: seq<Pokemon>, sorted: seq<Pokemon>, limit: nat, offset: nat, i: nat)
    requires multiset(sorted) == multiset(docs) && AscendingByNo(sorted)
    requires i < |Page(sorted, offset, limit)|
    ensures var d := Page(sorted, offset, limit)[i];
            d in docs && Rank(docs, d.no) == offset + i
  {
    SortedRanks(docs, sorted, offset + i);
  }

  /** A stored document appears on a page of the sorted collection exactly
      when its rank lies in the window. */
  lemma PageWindow(docs: seq<Pokemon>, sorted: seq<Pokemon>, limit: nat, offset: nat, d: Pokemon)
    requires multiset(sorted) == multiset(docs) && AscendingByNo(sorted) && d in docs
    ensures d in Page(sorted, offset, limit) <==> InWindow(Rank(docs, d.no), limit, offset)
  {
    var page := Page(sorted, offset, limit);
    var j := PositionInSorted(docs, sorted, d);
    if InWindow(Rank(docs, d.no), limit, offset) {
      assert page[j - offset] == d;
    }
    if d in page {
      var i :| 0 <= i < |page| && page[i] == d;
      assert sorted[offset + i] == d;
      SortedRanks(docs, sorted, offset + i);
    }
  }

  /** Removing the version key loses no identity: in a valid store two
      documents with the same projection are the same document. */
  lemma StripInjective(s: Store, a: Pokemon, b: Pokemon)
    requires Valid(s) && a in s.docs && b in s.docs && Strip(a) == Strip(b)
    ensures a == b
  {
    assert Strip(a).id == a.id && Strip(b).id == b.id;
    ValidUnique(s, a, b);
  }
}
