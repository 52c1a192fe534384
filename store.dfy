/** The document store behind the three collections (books, courses, notes),
    reduced to what the routes of server.js use: insert-one (`save`),
    find-all (`find`), count (`countDocuments`) and delete-by-id
    (`findByIdAndDelete`). Identifiers are handed out by the store in
    increasing order, so a collection kept in insertion order is also
    sorted by identifier. */
module Store {

  /** A stored record: its store-assigned identifier and its fields. */
  datatype Doc<T> = Doc(id: nat, fields: T)

  ghost predicate IdsAscending<T>(docs: seq<Doc<T>>)
  {
    forall i, j :: 0 <= i < j < |docs| ==> docs[i].id < docs[j].id
  }

  ghost predicate IdsDescending<T>(docs: seq<Doc<T>>)
  {
    forall i, j :: 0 <= i < j < |docs| ==> docs[i].id > docs[j].id
  }

  /** Delete-if-exists: every record with identifier `id` is dropped, the
      others stay, in their order. */
  function RemoveId<T(!new)>(docs: seq<Doc<T>>, id: nat): (r: seq<Doc<T>>)
    ensures forall d :: d in r <==> d in docs && d.id != id
    ensures |r| <= |docs|
  {
    if docs == [] then []
    else if docs[0].id == id then RemoveId(docs[1..], id)
    else [docs[0]] + RemoveId(docs[1..], id)
  }

  lemma {:induction false} RemoveIdAbsent<T(!new)>(docs: seq<Doc<T>>, id: nat)
    requires forall d :: d in docs ==> d.id != id
    ensures RemoveId(docs, id) == docs
  {
    if docs != [] {
      assert docs[0] in docs;
      RemoveIdAbsent(docs[1..], id);
    }
  }

  lemma HeadBelowTail<T>(docs: seq<Doc<T>>)
    requires IdsAscending(docs) && docs != []
    ensures forall d :: d in docs[1..] ==> docs[0].id < d.id
  {
    forall d | d in docs[1..] ensures docs[0].id < d.id {
      var k :| 0 <= k < |docs[1..]| && docs[1..][k] == d;
      assert docs[k + 1] == d;
    }
  }

  lemma ConsAscending<T>(d: Doc<T>, rest: seq<Doc<T>>)
    requires IdsAscending(rest)
    requires forall e :: e in rest ==> d.id < e.id
    ensures IdsAscending([d] + rest)
  {
    var r := [d] + rest;
    forall i, j | 0 <= i < j < |r| ensures r[i].id < r[j].id {
      assert r[j] == rest[j - 1];
      if i == 0 {
        assert r[j] in rest;
      } else {
        assert r[i] == rest[i - 1];
      }
    }
  }

  /** Deleting keeps the identifiers in ascending order. */
  lemma {:induction false} RemoveIdAscending<T(!new)>(docs: seq<Doc<T>>, id: nat)
    requires IdsAscending(docs)
    ensures IdsAscending(RemoveId(docs, id))
  {
    if docs != [] {
      var rest := RemoveId(docs[1..], id);
      RemoveIdAscending(docs[1..], id);
      if docs[0].id != id {
        HeadBelowTail(docs);
        ConsAscending(docs[0], rest);
      }
    }
  }

  /** Deleting an identifier a second time changes nothing: a missing
      identifier is not an error. */
  lemma RemoveIdIdempotent<T(!new)>(docs: seq<Doc<T>>, id: nat)
    ensures RemoveId(RemoveId(docs, id), id) == RemoveId(docs, id)
  {
    RemoveIdAbsent(RemoveId(docs, id), id);
  }

  /** One collection of the store. */
  class Collection<T(!new)> {
    var docs: seq<Doc<T>>
    var nextId: nat

    ghost predicate Valid()
      reads this
    {
      && IdsAscending(docs)
      && forall d :: d in docs ==> d.id < nextId
    }

    constructor ()
      ensures Valid() && docs == []
    {
      docs := [];
      nextId := 0;
    }

    /** `new Model(fields).save()`: the record is stored under a fresh
        identifier larger than every identifier handed out before. */
    method Insert(fields: T) returns (id: nat)
      requires Valid()
      modifies this
      ensures Valid()
      ensures id == old(nextId) && docs == old(docs) + [Doc(id, fields)]
      ensures forall d :: d in old(docs) ==> d.id < id
    {
      id := nextId;
      docs := docs + [Doc(id, fields)];
      nextId := nextId + 1;
    }

    /** `Model.findByIdAndDelete(id)`: succeeds whether or not a record with
        that identifier exists. */
    method Delete(id: nat)
      requires Valid()
      modifies this
      ensures Valid()
      ensures docs == RemoveId(old(docs), id) && nextId == old(nextId)
    {
      RemoveIdAscending(docs, id);
      docs := RemoveId(docs, id);
    }

    /** `Model.find()`: every record, in insertion order. */
    method FindAll() returns (all: seq<Doc<T>>)
      requires Valid()
      ensures all == docs && IdsAscending(all)
    {
      all := docs;
    }

    /** `Model.countDocuments()`. */
    method CountDocuments() returns (n: nat)
      ensures n == |docs|
    {
      n := |docs|;
    }
  }
}
