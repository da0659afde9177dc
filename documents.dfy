/**
 * The document record (one row of the `pdf_documents` table, which the client
 * receives verbatim as a `PdfItem`), the request bodies the page and open
 * handlers accept, the errors they raise, and the name-or-topic search that
 * both the server's listing and the client's filter box perform.
 */
module Documents {
  import opened Wrappers
  import opened Strings

  /** One stored PDF. `path` is the stored file's name inside the storage directory. */
  datatype PdfDocument = PdfDocument(
    id: int,
    filename: string,
    originalName: string,
    topic: Option<string>,
    path: string,
    numPages: int,
    isOpen: bool,
    currentPage: int)

  /** A freshly uploaded record: the column defaults leave it closed, on page 1. */
  function NewDocument(id: int, filename: string, originalName: string, topic: Option<string>,
                       numPages: nat): (d: PdfDocument)
    ensures !d.isOpen && d.currentPage == 1
    ensures d.id == id && d.filename == filename && d.path == filename
    ensures d.originalName == originalName && d.topic == topic && d.numPages == numPages
  {
    PdfDocument(id, filename, originalName, topic, filename, numPages, false, 1)
  }

  /** `1 <= current_page <= num_pages` once the document has a page; the page count is never negative. */
  predicate PageInvariant(d: PdfDocument) {
    d.numPages >= 0 && (d.numPages >= 1 ==> 1 <= d.currentPage <= d.numPages)
  }

  /** The `mode` of a page request. */
  datatype PageMode = Next | Prev | Set

  /** The body of `POST /{id}/page`. */
  datatype PageRequest = PageRequest(mode: PageMode, page: Option<int>)

  /** The body of `POST /{id}/open`. */
  datatype OpenRequest = OpenRequest(page: Option<int>)

  /** Parsing a page request body: an absent `mode` means `next`. */
  function ParsePageRequest(mode: Option<PageMode>, page: Option<int>): (r: PageRequest)
    ensures mode.None? ==> r.mode == Next
    ensures mode.Some? ==> r.mode == mode.value
    ensures r.page == page
  {
    PageRequest(if mode.Some? then mode.value else Next, page)
  }

  /** Python truthiness of an optional page number: both `None` and `0` are false. */
  predicate Truthy(page: Option<int>) {
    page.Some? && page.value != 0
  }

  /** Python truthiness of an optional string: both `None` and `""` are false. */
  predicate TruthyText(s: Option<string>) {
    s.Some? && s.value != ""
  }

  /** An `HTTPException` the handlers raise. */
  datatype HttpError = HttpError(status: int, detail: string)

  const NotFound := HttpError(404, "PDF no encontrado")
  const NotAPdf := HttpError(400, "Solo se permiten archivos PDF")
  const Unreadable := HttpError(400, "No se pudo leer el PDF")

  // ---------------------------------------------------------------------------
  // Search by name or topic

  /**
   * Accent- and case-insensitive form of an optional text. `fold` stands for
   * the Unicode decomposition, mark stripping and lower-casing, which are not
   * modelled; the absent and the empty text both normalise to "".
   */
  function Normalized(value: Option<string>, fold: string -> string): (r: string)
    ensures !TruthyText(value) ==> r == ""
    ensures TruthyText(value) ==> r == fold(value.value)
  {
    if TruthyText(value) then fold(value.value) else ""
  }

  /** The document's normalised topic or normalised original name contains the needle. */
  predicate MatchesNeedle(d: PdfDocument, needle: string, fold: string -> string)
    ensures needle == "" ==> MatchesNeedle(d, needle, fold)
  {
    ContainsEmpty(Normalized(d.topic, fold));
    Contains(Normalized(d.topic, fold), needle) || Contains(Normalized(Some(d.originalName), fold), needle)
  }

  /** The documents that match, in their original order. */
  function Filtered(items: seq<PdfDocument>, needle: string, fold: string -> string): (r: seq<PdfDocument>)
    ensures |r| <= |items|
    ensures forall d :: d in r ==> MatchesNeedle(d, needle, fold)
  {
    if items == [] then []
    else (if MatchesNeedle(items[0], needle, fold) then [items[0]] else [])
         + Filtered(items[1..], needle, fold)
  }

  /** `a` is `b` with some elements left out, the rest kept in order. */
  predicate IsSubsequence<T(==)>(a: seq<T>, b: seq<T>) {
    a == [] || (b != [] && ((a[0] == b[0] && IsSubsequence(a[1..], b[1..])) || IsSubsequence(a, b[1..])))
  }

  /** The filter keeps exactly the matching documents... */
  lemma {:induction false} FilteredMembership(items: seq<PdfDocument>, needle: string, fold: string -> string,
                                              d: PdfDocument)
    ensures d in Filtered(items, needle, fold) <==> d in items && MatchesNeedle(d, needle, fold)
  {
    if items != [] {
      FilteredMembership(items[1..], needle, fold, d);
      assert items == [items[0]] + items[1..];
    }
  }

  /** The same, for every document at once. */
  lemma FilteredMembershipAll(items: seq<PdfDocument>, needle: string, fold: string -> string)
    ensures forall d :: d in Filtered(items, needle, fold) <==> d in items && MatchesNeedle(d, needle, fold)
  {
    forall d {
      FilteredMembership(items, needle, fold, d);
    }
  }

  /** ...in the order they had. */
  lemma {:induction false} FilteredIsSubsequence(items: seq<PdfDocument>, needle: string, fold: string -> string)
    ensures IsSubsequence(Filtered(items, needle, fold), items)
  {
    if items != [] {
      FilteredIsSubsequence(items[1..], needle, fold);
      var rest := Filtered(items[1..], needle, fold);
      if MatchesNeedle(items[0], needle, fold) {
        assert Filtered(items, needle, fold) == [items[0]] + rest;
        assert ([items[0]] + rest)[1..] == rest;
      } else {
        assert Filtered(items, needle, fold) == rest;
      }
    }
  }

  /** The empty needle matches every document, so filtering by it returns the list unchanged. */
  lemma {:induction false} FilteredByEmptyNeedle(items: seq<PdfDocument>, fold: string -> string)
    ensures Filtered(items, "", fold) == items
  {
    if items != [] {
      ContainsEmpty(Normalized(items[0].topic, fold));
      FilteredByEmptyNeedle(items[1..], fold);
      assert items == [items[0]] + items[1..];
    }
  }

  /** Filtering a list grown by one element at the end: the step of the server's append loop. */
  lemma {:induction false} FilteredSnoc(items: seq<PdfDocument>, d: PdfDocument, needle: string,
                                        fold: string -> string)
    ensures Filtered(items + [d], needle, fold)
            == Filtered(items, needle, fold) + (if MatchesNeedle(d, needle, fold) then [d] else [])
  {
    if items == [] {
      assert [] + [d] == [d];
    } else {
      var head := if MatchesNeedle(items[0], needle, fold) then [items[0]] else [];
      assert (items + [d])[0] == items[0];
      assert (items + [d])[1..] == items[1..] + [d];
      assert Filtered(items + [d], needle, fold) == head + Filtered(items[1..] + [d], needle, fold);
      FilteredSnoc(items[1..], d, needle, fold);
      assert Filtered(items, needle, fold) == head + Filtered(items[1..], needle, fold);
    }
  }

  /** The filter of one more element of a list, read as prefixes: the step of the server's loop over the listing. */
  lemma FilteredPrefixStep(items: seq<PdfDocument>, i: int, needle: string, fold: string -> string)
    requires 0 <= i < |items|
    ensures Filtered(items[..i + 1], needle, fold)
            == Filtered(items[..i], needle, fold) + (if MatchesNeedle(items[i], needle, fold) then [items[i]] else [])
  {
    assert items[..i + 1] == items[..i] + [items[i]];
    FilteredSnoc(items[..i], items[i], needle, fold);
  }
}
