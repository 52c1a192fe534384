/** The `GET /api/notes` handler of server.js: a three-note page of the notes
    collection, newest first, with the page count and the requested page. */
module NotesApi {
  import opened Wrappers
  import opened Store

  datatype NoteFields = NoteFields(category: string, title: string, meta: string, image: string)

  type Note = Doc<NoteFields>

  /** `limit`: notes per page. */
  const PageSize: nat := 3

  /** The JSON body `{ notes, totalPages, currentPage }`. */
  datatype NotesResponse = NotesResponse(notes: seq<Note>, totalPages: nat, currentPage: int)

  /** A query the store rejects, answered with status 500 and its message. */
  datatype QueryError = NegativeSkip(skip: int)

  function Min(a: int, b: int): int
  {
    if a <= b then a else b
  }

  /** `parseInt(req.query.page) || 1`. The query value is `None` when it is
      missing or does not parse (`NaN`); `NaN` and `0` are falsy and fall
      back to 1, any other integer is kept as it is, negative ones included. */
  function RequestedPage(query: Option<int>): (page: int)
    ensures page != 0
    ensures (query.None? || query.value == 0) ==> page == 1
    ensures query.Some? && query.value != 0 ==> page == query.value
  {
    if query.Some? && query.value != 0 then query.value else 1
  }

  /** `Math.ceil` on a real number. */
  function Ceil(x: real): (n: int)
    ensures x <= n as real < x + 1.0
  {
    -((-x).Floor)
  }

  /** `Math.ceil(totalNotes / limit)`: the fewest pages that hold every note. */
  function TotalPages(total: nat): (n: nat)
    ensures n * PageSize >= total
    ensures total > 0 ==> (n - 1) * PageSize < total
    ensures n == 0 <==> total == 0
  {
    Ceil(total as real / PageSize as real)
  }

  /** `.sort({ _id: -1 })` of a collection kept in insertion order. */
  function NewestFirst<T>(docs: seq<T>): (r: seq<T>)
    ensures |r| == |docs|
    ensures forall i :: 0 <= i < |docs| ==> r[i] == docs[|docs| - 1 - i]
  {
    if docs == [] then [] else NewestFirst(docs[1..]) + [docs[0]]
  }

  /** `.skip(k)`: past the end nothing is left. */
  function SkipDocs<T>(docs: seq<T>, k: nat): seq<T>
  {
    if k >= |docs| then [] else docs[k..]
  }

  /** `.limit(k)`: at most the first `k`. */
  function LimitDocs<T>(docs: seq<T>, k: nat): seq<T>
  {
    if k >= |docs| then docs else docs[..k]
  }

  /** The handler, given the notes collection in insertion order. The count
      and the page are read from the same collection. */
  function ListNotes(store: seq<Note>, query: Option<int>): (r: Result<NotesResponse, QueryError>)
    ensures r.Success? <==> RequestedPage(query) >= 1
    ensures r.Success? ==>
      var page := RequestedPage(query);
      var skip := (page - 1) * PageSize;
      && r.value.currentPage == page
      && r.value.totalPages == TotalPages(|store|)
      && |r.value.notes| <= PageSize
      && (skip >= |store| ==> r.value.notes == [])
      && (skip < |store| ==> r.value.notes == NewestFirst(store)[skip..Min(skip + PageSize, |store|)])
  {
    var page := RequestedPage(query);
    var skip := (page - 1) * PageSize;
    var totalNotes := |store|;
    if skip < 0 then Failure(NegativeSkip(skip))
    else
      var notes := LimitDocs(SkipDocs(NewestFirst(store), skip), PageSize);
      Success(NotesResponse(notes, TotalPages(totalNotes), page))
  }

  /** The notes of page `page`, for pages the handler accepts. */
  function PageNotes(store: seq<Note>, page: nat): seq<Note>
    requires page >= 1
  {
    ListNotes(store, Some(page)).value.notes
  }

  /** A full page before the last one, the remainder on the last, nothing
      past it. */
  lemma PageSizes(store: seq<Note>, page: nat)
    requires page >= 1
    ensures page < TotalPages(|store|) ==> |PageNotes(store, page)| == PageSize
    ensures page == TotalPages(|store|) ==>
      |PageNotes(store, page)| == |store| - PageSize * (TotalPages(|store|) - 1)
    ensures page > TotalPages(|store|) ==> PageNotes(store, page) == []
  {
    var tp := TotalPages(|store|);
    var skip := (page - 1) * PageSize;
    if page < tp {
      assert skip + PageSize <= (tp - 1) * PageSize;
    } else if page > tp {
      assert skip >= tp * PageSize;
    }
  }

  /** Pages `1..k` one after the other. */
  function PagesThrough(store: seq<Note>, k: nat): seq<Note>
  {
    if k == 0 then [] else PagesThrough(store, k - 1) + PageNotes(store, k)
  }

  lemma {:induction false} PagesThroughPrefix(store: seq<Note>, k: nat)
    ensures PagesThrough(store, k) == NewestFirst(store)[..Min(k * PageSize, |store|)]
  {
    if k > 0 {
      PagesThroughPrefix(store, k - 1);
      var all := NewestFirst(store);
      var lo := Min((k - 1) * PageSize, |store|);
      var hi := Min(k * PageSize, |store|);
      if (k - 1) * PageSize < |store| {
        assert all[..hi] == all[..lo] + all[lo..hi];
      } else {
        assert lo == hi;
      }
    }
  }

  lemma {:induction false} NewestFirstMultiset<T>(docs: seq<T>)
    ensures multiset(NewestFirst(docs)) == multiset(docs)
  {
    if docs != [] {
      NewestFirstMultiset(docs[1..]);
      assert docs == [docs[0]] + docs[1..];
    }
  }

  /** Sorting by identifier, descending, reverses the insertion order. */
  lemma NewestFirstDescending(docs: seq<Note>)
    requires IdsAscending(docs)
    ensures IdsDescending(NewestFirst(docs))
  {
  }

  /** Pages `1..totalPages` together give the whole collection, newest first. */
  lemma PagesPartition(store: seq<Note>)
    ensures PagesThrough(store, TotalPages(|store|)) == NewestFirst(store)
  {
    var tp := TotalPages(|store|);
    var all := NewestFirst(store);
    PagesThroughPrefix(store, tp);
    assert Min(tp * PageSize, |store|) == |all|;
    assert all[..|all|] == all;
  }

  /** ... and so every note exactly once, identifiers strictly descending. */
  lemma PagesHoldEachNoteOnce(store: seq<Note>)
    requires IdsAscending(store)
    ensures multiset(PagesThrough(store, TotalPages(|store|))) == multiset(store)
    ensures IdsDescending(PagesThrough(store, TotalPages(|store|)))
  {
    PagesPartition(store);
    NewestFirstMultiset(store);
    NewestFirstDescending(store);
  }

  /** The note saved last heads the first page, the one served by default. */
  lemma NewestNoteLeadsFirstPage(store: seq<Note>, note: Note)
    ensures ListNotes(store + [note], None).Success?
    ensures ListNotes(store + [note], None).value.notes[0] == note
  {
  }

  /** Seven notes: page 3 holds the seventh, oldest note; page 4 is empty and
      is still echoed as the current page. */
  lemma SevenNotes(store: seq<Note>)
    requires |store| == 7
    ensures ListNotes(store, Some(3)) == Success(NotesResponse([store[0]], 3, 3))
    ensures ListNotes(store, Some(4)) == Success(NotesResponse([], 3, 4))
  {
    assert NewestFirst(store)[6..7] == [store[0]];
  }
}
