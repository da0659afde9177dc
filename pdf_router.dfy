/**
 * The document endpoints (server/app/routers/pdfs.py): the listing with its
 * search, the upload with its name checks and collision loop, and the per-id
 * handlers that open, close, page, classify and delete one record.
 *
 * The table is the class `PdfStore`: a map from id to record, the ids in
 * listing order, and the names present in the storage directory. Each handler
 * looks its record up, changes it in place and returns it, or raises 404.
 */
module PdfRouter {
  import opened Wrappers
  import opened Strings
  import opened Documents
  import opened Dewey

  // ---------------------------------------------------------------------------
  // Page arithmetic

  function Min(a: int, b: int): int { if b < a then b else a }

  function Max(a: int, b: int): int { if b > a then b else a }

  /** `min(current_page + 1, num_pages)`: one page on, never past the last page. */
  function NextPage(current: int, numPages: int): (p: int)
    ensures p <= numPages
    ensures current < numPages ==> p == current + 1
    ensures current >= numPages ==> p == numPages
  {
    Min(current + 1, numPages)
  }

  /** `max(current_page - 1, 1)`: one page back, never before page 1. */
  function PrevPage(current: int): (p: int)
    ensures p >= 1
    ensures current > 1 ==> p == current - 1
    ensures current <= 1 ==> p == 1
  {
    Max(current - 1, 1)
  }

  /** `max(1, min(page, num_pages))`: the requested page pulled into `[1, num_pages]`. */
  function ClampPage(page: int, numPages: int): (p: int)
    ensures p >= 1
    ensures numPages >= 1 ==> p <= numPages
    ensures 1 <= page <= numPages ==> p == page
    ensures page > numPages >= 1 ==> p == numPages
    ensures page < 1 || numPages < 1 ==> p == 1
  {
    Max(1, Min(page, numPages))
  }

  /** The record after `change_page`; the body's `page` counts only when truthy, and only for `set`. */
  function WithPageChanged(d: PdfDocument, req: PageRequest): (r: PdfDocument)
    ensures r == d.(currentPage := r.currentPage)
    ensures req.mode == Set && Truthy(req.page) ==> r.currentPage == ClampPage(req.page.value, d.numPages)
  {
    match req.mode
    case Next => d.(currentPage := NextPage(d.currentPage, d.numPages))
    case Prev => d.(currentPage := PrevPage(d.currentPage))
    case Set => if Truthy(req.page) then d.(currentPage := ClampPage(req.page.value, d.numPages)) else d
  }

  /** The record after `open_pdf`: open, and moved to the requested page when one is given. */
  function WithOpened(d: PdfDocument, req: OpenRequest): (r: PdfDocument)
    ensures r.isOpen && r == d.(isOpen := true, currentPage := r.currentPage)
    ensures !Truthy(req.page) ==> r.currentPage == d.currentPage
    ensures Truthy(req.page) ==> r.currentPage == ClampPage(req.page.value, d.numPages)
  {
    var d1 := d.(isOpen := true);
    if Truthy(req.page) then d1.(currentPage := ClampPage(req.page.value, d.numPages)) else d1
  }

  /** The record after `close_pdf`. */
  function WithClosed(d: PdfDocument): (r: PdfDocument)
    ensures !r.isOpen && r.(isOpen := d.isOpen) == d
  {
    d.(isOpen := false)
  }

  /** The record after `classify_pdf`. */
  function WithTopic(d: PdfDocument, topic: string): (r: PdfDocument)
    ensures r.topic == Some(topic) && r.(topic := d.topic) == d
  {
    d.(topic := Some(topic))
  }

  /**
   * A page change moves nothing but the current page, does not care whether
   * the document is open, and keeps the page within `[1, num_pages]`.
   */
  lemma PageChangeKeepsBounds(d: PdfDocument, req: PageRequest)
    requires PageInvariant(d)
    ensures var d' := WithPageChanged(d, req);
            && PageInvariant(d')
            && d' == d.(currentPage := d'.currentPage)
  {
  }

  /** Opening keeps the page within `[1, num_pages]` and touches only `is_open` and the page. */
  lemma OpenKeepsBounds(d: PdfDocument, req: OpenRequest)
    requires PageInvariant(d)
    ensures var d' := WithOpened(d, req);
            && PageInvariant(d') && d'.isOpen
            && d' == d.(isOpen := true, currentPage := d'.currentPage)
            && (!Truthy(req.page) ==> d'.currentPage == d.currentPage)
  {
  }

  /** Before the last page, `prev` undoes `next`. */
  lemma PrevUndoesNext(d: PdfDocument)
    requires 1 <= d.currentPage < d.numPages
    ensures WithPageChanged(WithPageChanged(d, PageRequest(Next, None)), PageRequest(Prev, None)) == d
  {
  }

  /** On the last page `next` stays put; on page 1 `prev` stays put. */
  lemma EndsAreFixed(d: PdfDocument)
    requires d.numPages >= 1
    ensures d.currentPage == d.numPages ==> WithPageChanged(d, PageRequest(Next, None)) == d
    ensures d.currentPage == 1 ==> WithPageChanged(d, PageRequest(Prev, None)) == d
  {
  }

  /**
   * A page request without `mode` is a `next`: it turns one page forward and
   * ignores any `page` it carries.
   */
  lemma ParsedDefaultTurnsForward(d: PdfDocument, page: Option<int>)
    ensures WithPageChanged(d, ParsePageRequest(None, page)) == WithPageChanged(d, PageRequest(Next, None))
    ensures d.currentPage < d.numPages ==> WithPageChanged(d, ParsePageRequest(None, page)).currentPage == d.currentPage + 1
  {
  }

  /** `set` or `open` with a page of the document lands on exactly that page. */
  lemma SetLandsOnPage(d: PdfDocument, p: int)
    requires 1 <= p <= d.numPages
    ensures WithPageChanged(d, PageRequest(Set, Some(p))).currentPage == p
    ensures WithOpened(d, OpenRequest(Some(p))).currentPage == p
  {
  }

  /** `set` without a page, or with page 0, changes nothing. */
  lemma SetWithoutPageIsNoOp(d: PdfDocument, page: Option<int>)
    requires !Truthy(page)
    ensures WithPageChanged(d, PageRequest(Set, page)) == d
  {
  }

  /** On a document without pages, `next` takes the page from 1 down to 0. */
  lemma NextOnEmptyDocument(d: PdfDocument)
    requires d.numPages == 0 && d.currentPage == 1
    ensures WithPageChanged(d, PageRequest(Next, None)).currentPage == 0
  {
  }

  // ---------------------------------------------------------------------------
  // Upload names

  /**
   * The name tried after `k` collisions: each new candidate is built from the
   * previous candidate's stem, so the counters accumulate.
   */
  function Candidate(safeName: string, k: nat): string {
    if k == 0 then safeName
    else NextCandidate(Candidate(safeName, k - 1), k)
  }

  /** The name tried after the `k`-th collision on `name`: `f"{stem}_{k}.pdf"`. */
  function NextCandidate(name: string, k: nat): (r: string)
    ensures IsPdfName(r)
  {
    PdfSuffixIsPdfName(Stem(name) + "_" + DecimalString(k));
    Stem(name) + "_" + DecimalString(k) + ".pdf"
  }

  /** The counters that `k` collisions leave in the name: "_1_2_..._k". */
  function CounterTags(k: nat): (r: string)
    ensures k >= 1 ==> |r| >= 2
  {
    if k == 0 then "" else CounterTags(k - 1) + "_" + DecimalString(k)
  }

  /** After `k >= 1` collisions the name is the original stem followed by every counter so far. */
  lemma {:induction false} CandidateAccumulates(safeName: string, k: nat)
    requires k >= 1
    ensures Candidate(safeName, k) == Stem(safeName) + CounterTags(k) + ".pdf"
  {
    var d := DecimalString(k);
    var stem := Stem(safeName);
    assert CounterTags(k) == CounterTags(k - 1) + "_" + d;
    if k == 1 {
      assert CounterTags(1) == "_" + d;
      assert Candidate(safeName, 1) == stem + "_" + d + ".pdf";
    } else {
      var prev := Candidate(safeName, k - 1);
      CandidateAccumulates(safeName, k - 1);
      StemOfPdf(stem + CounterTags(k - 1));
      assert Stem(prev) == stem + CounterTags(k - 1);
      assert Candidate(safeName, k) == Stem(prev) + "_" + d + ".pdf";
      Regroup(stem, CounterTags(k - 1), d);
    }
  }

  /** Where the counters go is a matter of bracketing only. */
  lemma Regroup(stem: string, tags: string, d: string)
    ensures stem + tags + "_" + d + ".pdf" == stem + (tags + "_" + d) + ".pdf"
  {
    assert stem + tags + "_" + d == stem + (tags + "_" + d);
  }

  /** One collision on "informe.pdf" leads to "informe_1.pdf". */
  lemma FirstCollisionExample()
    ensures Candidate("informe.pdf", 1) == "informe_1.pdf"
  {
    StemOfPdf("informe");
    assert "informe" + ".pdf" == "informe.pdf";
    assert DecimalString(1) == "1";
    assert "informe" + "_" + "1" + ".pdf" == "informe_1.pdf";
  }

  /** Two collisions on "informe.pdf" lead to "informe_1_2.pdf", not "informe_2.pdf". */
  lemma CandidateExample()
    ensures Candidate("informe.pdf", 2) == "informe_1_2.pdf"
  {
    FirstCollisionExample();
    StemOfPdf("informe_1");
    assert "informe_1" + ".pdf" == "informe_1.pdf";
    assert DecimalString(2) == "2";
    assert Candidate("informe.pdf", 2) == NextCandidate("informe_1.pdf", 2);
    assert "informe_1" + "_" + "2" + ".pdf" == "informe_1_2.pdf";
  }

  /** Whatever precedes it, a name ending in ".pdf" passes the upload check. */
  lemma PdfSuffixIsPdfName(prefix: string)
    ensures IsPdfName(prefix + ".pdf")
  {
    var c := prefix + ".pdf";
    var n := |c|;
    assert c[n - 4] == '.' && c[n - 3] == 'p' && c[n - 2] == 'd' && c[n - 1] == 'f';
  }

  /** The next candidate passes the upload check again and is longer, so the loop never retries a name. */
  lemma NextCandidateGrows(name: string, k: nat)
    requires IsPdfName(name)
    ensures IsPdfName(NextCandidate(name, k))
    ensures |NextCandidate(name, k)| > |name|
  {
    PdfSuffixIsPdfName(Stem(name) + "_" + DecimalString(k));
    StemOfPdfName(name);
  }

  /** Every candidate passes the upload check. */
  lemma {:induction false} CandidateIsPdfName(safeName: string, k: nat)
    requires IsPdfName(safeName)
    ensures IsPdfName(Candidate(safeName, k))
  {
    if k > 0 {
      CandidateIsPdfName(safeName, k - 1);
      NextCandidateGrows(Candidate(safeName, k - 1), k);
    }
  }

  /** The names in `files` at least `n` characters long: what the collision loop can still run into. */
  function NamesAtLeast(files: set<string>, n: int): set<string> {
    set f | f in files && |f| >= n
  }

  /** The candidate after `j` collisions is already in the storage directory. */
  predicate Taken(safeName: string, files: set<string>, j: nat) {
    Candidate(safeName, j) in files
  }

  /** The first `n` candidates are all taken: the collisions the loop has met. */
  predicate AllTaken(safeName: string, files: set<string>, n: nat) {
    n == 0 || (AllTaken(safeName, files, n - 1) && Taken(safeName, files, n - 1))
  }

  /** `AllTaken` means what it says, candidate by candidate. */
  lemma {:induction false} AllTakenMeans(safeName: string, files: set<string>, n: nat)
    ensures AllTaken(safeName, files, n) <==> forall j :: 0 <= j < n ==> Taken(safeName, files, j)
  {
    if n > 0 {
      AllTakenMeans(safeName, files, n - 1);
      if AllTaken(safeName, files, n) {
        forall j | 0 <= j < n
          ensures Taken(safeName, files, j)
        {
          if j < n - 1 {
            assert AllTaken(safeName, files, n - 1);
          }
        }
      }
    }
  }

  /** After a collision, the first name tried was already taken. */
  lemma {:induction false} FirstCandidateTaken(safeName: string, files: set<string>, n: nat)
    requires n >= 1 && AllTaken(safeName, files, n)
    ensures safeName in files
  {
    if n > 1 {
      FirstCandidateTaken(safeName, files, n - 1);
    } else {
      assert Taken(safeName, files, 0);
    }
  }

  /** A name the loop has just met no longer counts once it moves on to a longer name. */
  lemma NamesAtLeastShrinks(files: set<string>, taken: string, longer: string)
    requires taken in files && |longer| > |taken|
    ensures |NamesAtLeast(files, |longer|)| < |NamesAtLeast(files, |taken|)|
  {
    var shorter := NamesAtLeast(files, |longer|);
    var all := NamesAtLeast(files, |taken|);
    assert taken in all - shorter;
    assert all == shorter + (all - shorter);
    assert |all - shorter| >= 1;
  }

  /** The loop's state before its `i`-th test: `name` is the candidate after `i - 1` collisions, all of them met. */
  predicate Tried(safeName: string, files: set<string>, name: string, i: nat) {
    && i >= 1 && name == Candidate(safeName, i - 1) && IsPdfName(name)
    && AllTaken(safeName, files, i - 1)
  }

  /** One turn of the collision loop: the name met is taken, and the next one is the next candidate, closer to the end. */
  lemma CollisionStep(safeName: string, files: set<string>, name: string, i: nat)
    requires Tried(safeName, files, name, i) && name in files
    ensures Tried(safeName, files, NextCandidate(name, i), i + 1)
    ensures |NamesAtLeast(files, |NextCandidate(name, i)|)| < |NamesAtLeast(files, |name|)|
  {
    NextCandidateGrows(name, i);
    NamesAtLeastShrinks(files, name, NextCandidate(name, i));
    assert Taken(safeName, files, i - 1);
  }

  /** Before the first test nothing has been met yet. */
  lemma TriedAtStart(safeName: string, files: set<string>)
    requires IsPdfName(safeName)
    ensures Tried(safeName, files, safeName, 1)
  {
  }

  /** When the loop stops, its name is free, and it is the original name unless that one was taken. */
  lemma TriedAtExit(safeName: string, files: set<string>, name: string, i: nat)
    requires Tried(safeName, files, name, i) && name !in files
    ensures i >= 1 && name == Candidate(safeName, i - 1) && AllTaken(safeName, files, i - 1)
    ensures safeName !in files ==> name == safeName
  {
    if i > 1 {
      FirstCandidateTaken(safeName, files, i - 1);
    }
  }

  /**
   * The collision loop of `upload_pdf`: starting from `safeName`, the first
   * candidate not already in the storage directory, together with the number
   * of collisions met on the way. Upload only runs it on names it has accepted.
   */
  method ChooseDestName(safeName: string, files: set<string>) returns (name: string, collisions: nat)
    requires IsPdfName(safeName)
    ensures name !in files
    ensures name == Candidate(safeName, collisions)
    ensures AllTaken(safeName, files, collisions)
    ensures safeName !in files ==> name == safeName
  {
    name := safeName;
    var i := 1;
    TriedAtStart(safeName, files);
    while name in files
      invariant Tried(safeName, files, name, i)
      decreases |NamesAtLeast(files, |name|)|
    {
      CollisionStep(safeName, files, name, i);
      name := NextCandidate(name, i);
      i := i + 1;
    }
    TriedAtExit(safeName, files, name, i);
    collisions := i - 1;
  }

  // ---------------------------------------------------------------------------
  // Listing

  /** `q or topic or ""`: the search text, where `q` wins over `topic` and blanks count as absent. */
  function ListNeedle(topic: Option<string>, q: Option<string>): (raw: string)
    ensures TruthyText(q) ==> raw == q.value
    ensures !TruthyText(q) && TruthyText(topic) ==> raw == topic.value
    ensures !TruthyText(q) && !TruthyText(topic) ==> raw == ""
  {
    if TruthyText(q) then q.value else if TruthyText(topic) then topic.value else ""
  }

  /** The records whose ids are listed, in that order; ids without a record are skipped. */
  function ItemsOf(ids: seq<int>, docs: map<int, PdfDocument>): (r: seq<PdfDocument>)
    ensures |r| <= |ids|
    ensures forall d :: d in r ==> d in docs.Values
  {
    if ids == [] then []
    else (if ids[0] in docs then [docs[ids[0]]] else []) + ItemsOf(ids[1..], docs)
  }

  /** When every listed id has a record, the listing is those records, position by position. */
  lemma {:induction false} ItemsOfAllPresent(ids: seq<int>, docs: map<int, PdfDocument>)
    requires forall k :: 0 <= k < |ids| ==> ids[k] in docs
    ensures |ItemsOf(ids, docs)| == |ids|
    ensures forall k :: 0 <= k < |ids| ==> ItemsOf(ids, docs)[k] == docs[ids[k]]
  {
    if ids != [] {
      ItemsOfAllPresent(ids[1..], docs);
      assert forall k :: 1 <= k < |ids| ==> ids[k] == ids[1..][k - 1];
    }
  }

  /** No id is listed twice. */
  predicate Distinct(ids: seq<int>) {
    forall i, j :: 0 <= i < j < |ids| ==> ids[i] != ids[j]
  }

  /** The ids with `x` taken out, the rest in order. */
  function Without(ids: seq<int>, x: int): (r: seq<int>)
    ensures forall y :: y in r <==> y in ids && y != x
    ensures Distinct(ids) ==> Distinct(r)
  {
    if ids == [] then []
    else
      var rest := Without(ids[1..], x);
      assert Distinct(ids) ==> ids[0] !in ids[1..];
      var r := (if ids[0] == x then [] else [ids[0]]) + rest;
      assert forall i :: 1 <= i < |ids| ==> ids[i] == ids[1..][i - 1];
      r
  }

  // ---------------------------------------------------------------------------
  // The table

  /**
   * Every record sits under its own id, keeps its page in range and names a
   * stored file of its own (`filename` is unique); the listing holds each id
   * exactly once.
   */
  ghost predicate ValidTable(docs: map<int, PdfDocument>, order: seq<int>, files: set<string>) {
    && (forall id :: id in docs ==>
          && docs[id].id == id
          && PageInvariant(docs[id])
          && docs[id].path == docs[id].filename
          && docs[id].filename in files)
    && (forall a, b :: a in docs && b in docs && docs[a].filename == docs[b].filename ==> a == b)
    && Distinct(order)
    && (forall id :: id in order <==> id in docs)
  }

  /** Adding a fresh record under a fresh id and a fresh file name, first in the listing, keeps the table valid. */
  lemma InsertKeepsValid(docs: map<int, PdfDocument>, order: seq<int>, files: set<string>, doc: PdfDocument)
    requires ValidTable(docs, order, files)
    requires doc.id !in docs && doc.filename !in files
    requires PageInvariant(doc) && doc.path == doc.filename
    ensures ValidTable(docs[doc.id := doc], [doc.id] + order, files + {doc.filename})
  {
    var order' := [doc.id] + order;
    forall i, j | 0 <= i < j < |order'| ensures order'[i] != order'[j] {
      if i > 0 {
        assert order'[i] == order[i - 1] && order'[j] == order[j - 1];
      } else {
        assert order'[j] == order[j - 1] && order[j - 1] in docs;
      }
    }
  }

  class PdfStore {
    /** The rows of `pdf_documents`, by id. */
    var docs: map<int, PdfDocument>
    /** The ids in listing order: newest upload first (`created_at` descending). */
    var order: seq<int>
    /** The names present in the storage directory. */
    var files: set<string>

    ghost predicate Valid()
      reads this
    {
      ValidTable(docs, order, files)
    }

    /** All records, in listing order. */
    function Items(): seq<PdfDocument>
      reads this
    {
      ItemsOf(order, docs)
    }

    /** An empty table over a storage directory that already holds `existing`. */
    constructor (existing: set<string>)
      ensures Valid()
      ensures docs == map[] && order == [] && files == existing
    {
      docs := map[];
      order := [];
      files := existing;
    }

    /**
     * `list_pdfs`: with a blank search text every record in order; otherwise the
     * records whose normalised topic or name contains the normalised text, in order.
     */
    method ListPdfs(topic: Option<string>, q: Option<string>, fold: string -> string)
      returns (items: seq<PdfDocument>)
      ensures Normalized(Some(ListNeedle(topic, q)), fold) == "" ==> items == Items()
      ensures items == Filtered(Items(), Normalized(Some(ListNeedle(topic, q)), fold), fold)
    {
      var rawItems := ItemsOf(order, docs);
      var needle := Normalized(Some(ListNeedle(topic, q)), fold);
      if needle == "" {
        FilteredByEmptyNeedle(rawItems, fold);
        return rawItems;
      }
      var filtered: seq<PdfDocument> := [];
      var i := 0;
      while i < |rawItems|
        invariant 0 <= i <= |rawItems|
        invariant filtered == Filtered(rawItems[..i], needle, fold)
      {
        var it := rawItems[i];
        FilteredPrefixStep(rawItems, i, needle, fold);
        if MatchesNeedle(it, needle, fold) {
          filtered := filtered + [it];
        }
        i := i + 1;
      }
      assert rawItems[..|rawItems|] == rawItems;
      items := filtered;
    }

    /**
     * `upload_pdf`: refuse a name not ending in ".pdf"; store the file under the
     * first free candidate name; refuse (and remove the file) when the reader
     * fails; otherwise add a closed record on page 1 whose topic is the
     * classification of the file. `newId` is the id the database hands out.
     */
    method UploadPdf(filename: string, newId: int, reading: PdfReading, reply: RemoteReply,
                     search: (Pattern, string) -> bool) returns (r: Result<PdfDocument, HttpError>)
      requires Valid()
      requires newId !in docs
      modifies this`docs, this`order, this`files
      ensures Valid()
      ensures !IsPdfName(filename) ==> r == Failure(NotAPdf)
      ensures IsPdfName(filename) && reading.ReaderFails? ==> r == Failure(Unreadable)
      ensures r.Failure? ==> docs == old(docs) && order == old(order) && files == old(files)
      ensures IsPdfName(filename) && reading.Pages? ==>
                && r.Success?
                && r.value == NewDocument(newId, r.value.filename, filename,
                                          Some(ClassifyFile(reply, reading, search)), |reading.pages|)
                && r.value.filename !in old(files)
                && (exists k: nat :: r.value.filename == Candidate(ReplaceSpaces(filename), k)
                                && AllTaken(ReplaceSpaces(filename), old(files), k))
                && docs == old(docs)[newId := r.value]
                && order == [newId] + old(order)
                && files == old(files) + {r.value.filename}
    {
      if !IsPdfName(filename) {
        return Failure(NotAPdf);
      }
      var safeName := ReplaceSpaces(filename);
      ReplaceSpacesKeepsPdfName(filename);
      var before := files;
      var dest, collisions := ChooseDestName(safeName, files);
      files := files + {dest};
      match reading {
        case ReaderFails =>
          assert files - {dest} == before;
          files := files - {dest};
          r := Failure(Unreadable);
        case Pages(pages) =>
          var topic := ClassifyFile(reply, reading, search);
          var doc := NewDocument(newId, dest, filename, Some(topic), |pages|);
          InsertKeepsValid(docs, order, before, doc);
          docs := docs[newId := doc];
          order := [newId] + order;
          r := Success(doc);
          assert dest == Candidate(safeName, collisions) && AllTaken(safeName, before, collisions);
      }
    }

    /** `get_pdf`: the record, or 404. */
    method GetPdf(id: int) returns (r: Result<PdfDocument, HttpError>)
      ensures id in docs ==> r == Success(docs[id])
      ensures id !in docs ==> r == Failure(NotFound)
    {
      if id !in docs {
        return Failure(NotFound);
      }
      r := Success(docs[id]);
    }

    /** `open_pdf`: mark the record open, moving to a truthy requested page clamped into range; 404 for an unknown id. */
    method OpenPdf(id: int, payload: OpenRequest) returns (r: Result<PdfDocument, HttpError>)
      requires Valid()
      modifies this`docs
      ensures Valid()
      ensures id !in old(docs) ==> r == Failure(NotFound) && docs == old(docs)
      ensures id in old(docs) ==> r == Success(docs[id]) && docs == old(docs)[id := WithOpened(old(docs)[id], payload)]
    {
      if id !in docs {
        return Failure(NotFound);
      }
      OpenKeepsBounds(docs[id], payload);
      var doc := WithOpened(docs[id], payload);
      docs := docs[id := doc];
      r := Success(doc);
    }

    /** `close_pdf`: mark the record closed, keeping its page; 404 for an unknown id. */
    method ClosePdf(id: int) returns (r: Result<PdfDocument, HttpError>)
      requires Valid()
      modifies this`docs
      ensures Valid()
      ensures id !in old(docs) ==> r == Failure(NotFound) && docs == old(docs)
      ensures id in old(docs) ==> r == Success(docs[id]) && docs == old(docs)[id := WithClosed(old(docs)[id])]
    {
      if id !in docs {
        return Failure(NotFound);
      }
      var doc := WithClosed(docs[id]);
      docs := docs[id := doc];
      r := Success(doc);
    }

    /** `change_page`: move the page by the request, open or not; 404 for an unknown id. */
    method ChangePage(id: int, payload: PageRequest) returns (r: Result<PdfDocument, HttpError>)
      requires Valid()
      modifies this`docs
      ensures Valid()
      ensures id !in old(docs) ==> r == Failure(NotFound) && docs == old(docs)
      ensures id in old(docs) ==> r == Success(docs[id]) && docs == old(docs)[id := WithPageChanged(old(docs)[id], payload)]
    {
      if id !in docs {
        return Failure(NotFound);
      }
      PageChangeKeepsBounds(docs[id], payload);
      var doc := WithPageChanged(docs[id], payload);
      docs := docs[id := doc];
      r := Success(doc);
    }

    /** `classify_pdf`: replace the topic; 404 for an unknown id. */
    method ClassifyPdf(id: int, topic: string) returns (r: Result<PdfDocument, HttpError>)
      requires Valid()
      modifies this`docs
      ensures Valid()
      ensures id !in old(docs) ==> r == Failure(NotFound) && docs == old(docs)
      ensures id in old(docs) ==> r == Success(docs[id]) && docs == old(docs)[id := WithTopic(old(docs)[id], topic)]
    {
      if id !in docs {
        return Failure(NotFound);
      }
      var doc := WithTopic(docs[id], topic);
      docs := docs[id := doc];
      r := Success(doc);
    }

    /**
     * `delete_pdf`: try to remove the stored file, then remove the record whether
     * or not the file could be removed; 404 for an unknown id.
     */
    method DeletePdf(id: int, unlinkFails: bool) returns (r: Result<bool, HttpError>)
      requires Valid()
      modifies this`docs, this`order, this`files
      ensures Valid()
      ensures id !in old(docs) ==> r == Failure(NotFound) && docs == old(docs) && order == old(order) && files == old(files)
      ensures id in old(docs) ==>
                && r == Success(true)
                && docs == old(docs) - {id}
                && order == Without(old(order), id)
                && files == (if unlinkFails then old(files) else old(files) - {old(docs)[id].path})
    {
      if id !in docs {
        return Failure(NotFound);
      }
      if !unlinkFails {
        files := files - {docs[id].path};
      }
      docs := docs - {id};
      order := Without(order, id);
      r := Success(true);
    }
  }
}
