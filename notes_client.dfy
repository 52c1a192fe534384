/** public/js/notes.js: the notes page draws the notes of one page and the
    pagination links under them, and fetches another page when a link is
    clicked. The two DOM containers are the fields of `NotesPage`. */
module NotesClient {
  import opened Wrappers
  import opened Store
  import opened NotesApi
  import opened Html

  /** A pagination link: « (previous), a numbered page, » (next). */
  datatype Control = Prev(target: int) | PageLink(number: int, active: bool) | Next(target: int)

  /** The page a click on the control fetches. */
  function Target(c: Control): int
  {
    match c
    case Prev(t) => t
    case PageLink(n, _) => n
    case Next(t) => t
  }

  predicate IsActive(c: Control)
  {
    c.PageLink? && c.active
  }

  /** Links `1..k`, link `i` marked active when it is the current page. */
  function PageLinks(k: nat, currentPage: int): seq<Control>
  {
    seq(k, j requires 0 <= j < k => PageLink(j + 1, j + 1 == currentPage))
  }

  function PrevLinks(currentPage: int): seq<Control>
  {
    if currentPage > 1 then [Prev(currentPage - 1)] else []
  }

  function NextLinks(totalPages: nat, currentPage: int): seq<Control>
  {
    if currentPage < totalPages then [Next(currentPage + 1)] else []
  }

  /** What `renderPagination(totalPages, currentPage)` leaves in the container. */
  function Controls(totalPages: nat, currentPage: int): seq<Control>
  {
    PrevLinks(currentPage) + PageLinks(totalPages, currentPage) + NextLinks(totalPages, currentPage)
  }

  lemma ControlCount(totalPages: nat, currentPage: int)
    ensures |Controls(totalPages, currentPage)| ==
      totalPages + (if currentPage > 1 then 1 else 0) + (if currentPage < totalPages then 1 else 0)
    ensures totalPages == 0 && currentPage == 1 ==> Controls(totalPages, currentPage) == []
  {
  }

  /** A « link exists exactly when the current page is past the first; it
      comes first and goes one page back. */
  lemma PrevControl(totalPages: nat, currentPage: int)
    ensures (exists k :: 0 <= k < |Controls(totalPages, currentPage)| && Controls(totalPages, currentPage)[k].Prev?)
      <==> currentPage > 1
    ensures currentPage > 1 ==> Controls(totalPages, currentPage)[0] == Prev(currentPage - 1)
  {
    var cs := Controls(totalPages, currentPage);
    if currentPage > 1 {
      assert cs[0].Prev?;
    }
  }

  /** A » link exists exactly when the current page is before the last; it
      comes last and goes one page on. */
  lemma NextControl(totalPages: nat, currentPage: int)
    ensures (exists k :: 0 <= k < |Controls(totalPages, currentPage)| && Controls(totalPages, currentPage)[k].Next?)
      <==> currentPage < totalPages
    ensures currentPage < totalPages ==>
      var cs := Controls(totalPages, currentPage);
      cs[|cs| - 1] == Next(currentPage + 1)
  {
    var cs := Controls(totalPages, currentPage);
    if currentPage < totalPages {
      assert cs[|cs| - 1].Next?;
    }
  }

  /** Between them, one link per page `1..totalPages`, in increasing order. */
  lemma NumberedControls(totalPages: nat, currentPage: int)
    ensures var cs := Controls(totalPages, currentPage);
      var first := if currentPage > 1 then 1 else 0;
      && (forall k :: first <= k < first + totalPages ==>
            cs[k] == PageLink(k - first + 1, k - first + 1 == currentPage))
      && (forall k :: 0 <= k < |cs| && cs[k].PageLink? ==> first <= k < first + totalPages)
  {
  }

  /** Only the current page's link is marked, and none when the current page
      is outside `1..totalPages`. */
  lemma ActiveControl(totalPages: nat, currentPage: int)
    ensures var cs := Controls(totalPages, currentPage);
      && (forall j, k :: 0 <= j < |cs| && 0 <= k < |cs| && IsActive(cs[j]) && IsActive(cs[k]) ==> j == k)
      && (forall k :: 0 <= k < |cs| && IsActive(cs[k]) ==> cs[k] == PageLink(currentPage, true))
      && ((exists k :: 0 <= k < |cs| && IsActive(cs[k])) <==> 1 <= currentPage <= totalPages)
  {
    var cs := Controls(totalPages, currentPage);
    var first := if currentPage > 1 then 1 else 0;
    if 1 <= currentPage <= totalPages {
      assert IsActive(cs[first + currentPage - 1]);
    }
  }

  /** One rendered note: its delete form's identifier and the escaped texts. */
  datatype NoteItemView = NoteItemView(
    deleteId: nat, category: string, title: string, meta: string, imageSrc: string, imageAlt: string)

  /** What the notes container can hold. */
  datatype SectionItem = NoNotesFound | NoteItem(view: NoteItemView) | LoadFailed

  /** The markup of one note: every text goes through `escapeHtml`, the
      title twice (heading and `alt`). */
  function ItemView(note: Note): (v: NoteItemView)
    ensures v.deleteId == note.id
    ensures HtmlSafe(v.category) && HtmlSafe(v.title) && HtmlSafe(v.meta)
    ensures HtmlSafe(v.imageSrc) && HtmlSafe(v.imageAlt)
    ensures Unescape(v.category) == note.fields.category && Unescape(v.title) == note.fields.title
    ensures Unescape(v.meta) == note.fields.meta && Unescape(v.imageSrc) == note.fields.image
    ensures v.imageAlt == v.title
  {
    var f := note.fields;
    EscapeHtmlSafe(f.category);
    EscapeHtmlSafe(f.title);
    EscapeHtmlSafe(f.meta);
    EscapeHtmlSafe(f.image);
    EscapeHtmlRoundTrip(f.category);
    EscapeHtmlRoundTrip(f.title);
    EscapeHtmlRoundTrip(f.meta);
    EscapeHtmlRoundTrip(f.image);
    NoteItemView(note.id, EscapeHtml(f.category), EscapeHtml(f.title), EscapeHtml(f.meta),
                 EscapeHtml(f.image), EscapeHtml(f.title))
  }

  function NoteItems(notes: seq<Note>): seq<SectionItem>
  {
    seq(|notes|, i requires 0 <= i < |notes| => NoteItem(ItemView(notes[i])))
  }
  lemma NoteItemsSnoc(notes: seq<Note>, i: nat)
    requires i < |notes|
    ensures NoteItems(notes[..i + 1]) == NoteItems(notes[..i]) + [NoteItem(ItemView(notes[i]))]
  {
    assert notes[..i + 1][i] == notes[i];
  }


  /** What `renderNotes(notes)` leaves in the notes container. */
  function Section(notes: seq<Note>): seq<SectionItem>
  {
    if |notes| == 0 then [NoNotesFound] else NoteItems(notes)
  }

  /** No notes: only the "No notes found on this page." message. Otherwise
      one item per note, in the order received, and no message. */
  lemma SectionShape(notes: seq<Note>)
    ensures notes == [] <==> Section(notes) == [NoNotesFound]
    ensures notes != [] ==>
      && |Section(notes)| == |notes|
      && forall i :: 0 <= i < |notes| ==> Section(notes)[i] == NoteItem(ItemView(notes[i]))
  {
    if notes != [] {
      assert Section(notes)[0] == NoteItem(ItemView(notes[0]));
    }
  }

  /** The notes page: the notes container and the pagination container. */
  class NotesPage {
    var section: seq<SectionItem>
    var controls: seq<Control>

    constructor ()
      ensures section == [] && controls == []
    {
      section := [];
      controls := [];
    }

    /** `renderNotes`: clears the container, then the message or one item
        per note. */
    method RenderNotes(notes: seq<Note>)
      modifies this`section
      ensures section == Section(notes)
    {
      section := [];
      if |notes| == 0 {
        section := [NoNotesFound];
        return;
      }
      for i := 0 to |notes|
        invariant section == NoteItems(notes[..i])
      {
        NoteItemsSnoc(notes, i);
        section := section + [NoteItem(ItemView(notes[i]))];
      }
      assert notes[..|notes|] == notes;
    }

    /** `renderPagination`: clears the container, then «, the numbered links
        and ». */
    method RenderPagination(totalPages: nat, currentPage: int)
      modifies this`controls
      ensures controls == Controls(totalPages, currentPage)
    {
      controls := [];
      if currentPage > 1 {
        controls := controls + [Prev(currentPage - 1)];
      }
      var i := 1;
      while i <= totalPages
        invariant 1 <= i <= totalPages + 1
        invariant controls == PrevLinks(currentPage) + PageLinks(i - 1, currentPage)
      {
        controls := controls + [PageLink(i, i == currentPage)];
        i := i + 1;
      }
      if currentPage < totalPages {
        controls := controls + [Next(currentPage + 1)];
      }
    }

    /** `fetchAndRenderNotes` once the request has settled: `response` is the
        JSON body, or `None` for a failed request, an error status or a body
        that is not JSON. A failure replaces the notes with the failure
        message and leaves the links as they were. */
    method FetchAndRender(response: Option<NotesResponse>)
      modifies this
      ensures response.Some? ==> section == Section(response.value.notes)
      ensures response.Some? ==>
        controls == Controls(response.value.totalPages, response.value.currentPage)
      ensures response.None? ==> section == [LoadFailed] && controls == old(controls)
    {
      if response.None? {
        section := [LoadFailed];
        return;
      }
      RenderNotes(response.value.notes);
      RenderPagination(response.value.totalPages, response.value.currentPage);
    }
  }

  /** For a page within range, the links drawn under it mark that page alone,
      and every link leads to a page that holds notes. */
  lemma ServedPageControls(store: seq<Note>, page: nat)
    requires 1 <= page <= TotalPages(|store|)
    ensures var r := ListNotes(store, Some(page)).value;
      var cs := Controls(r.totalPages, r.currentPage);
      && (forall k :: 0 <= k < |cs| && IsActive(cs[k]) ==> cs[k] == PageLink(page, true))
      && (exists k :: 0 <= k < |cs| && IsActive(cs[k]))
      && (forall k :: 0 <= k < |cs| ==> 1 <= Target(cs[k]) <= TotalPages(|store|))
      && (forall k :: 0 <= k < |cs| ==> PageNotes(store, Target(cs[k])) != [])
  {
    var r := ListNotes(store, Some(page)).value;
    var tp := TotalPages(|store|);
    var cs := Controls(r.totalPages, r.currentPage);
    ActiveControl(tp, page);
    forall k | 0 <= k < |cs| ensures 1 <= Target(cs[k]) <= tp && PageNotes(store, Target(cs[k])) != [] {
      var t := Target(cs[k]);
      assert 1 <= t <= tp;
      PageSizes(store, t);
      assert (t - 1) * PageSize < |store|;
    }
  }

  /** With no notes the first page shows only the message and no links. */
  lemma EmptyCollectionView(store: seq<Note>)
    requires store == []
    ensures Section(ListNotes(store, Some(1)).value.notes) == [NoNotesFound]
    ensures Controls(ListNotes(store, Some(1)).value.totalPages, ListNotes(store, Some(1)).value.currentPage) == []
  {
  }
}
