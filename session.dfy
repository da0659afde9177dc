/**
 * The client and the server together: opening, page changes, closing,
 * classifying, deleting and gesture ticks, each taken through the document
 * store, with the store's answer handed back to the
 * client as `apiFetch` would deliver it. The point is that the client never
 * computes a page itself: what it shows is the record the server last
 * returned for the selected document.
 */
module Session {
  import opened Wrappers
  import opened Documents
  import opened Dewey
  import opened HandGestures
  import opened PdfRouter
  import opened ClientApp

  /**
   * `apiFetch` on a handler's outcome: a 2xx response with its JSON body, or a
   * 4xx response without one.
   */
  function ReplyOf<T>(r: Result<T, HttpError>): (reply: Reply<T>)
    ensures Adopted(reply) <==> r.Success?
    ensures reply.ok <==> r.Success?
    ensures r.Success? ==> reply.data == Some(r.value)
  {
    if r.Success? then Reply(true, Some(r.value)) else Reply(false, None)
  }

  /** A reply the client never sees because it sent no request. */
  const NoReply: Reply<PdfDocument> := Reply(false, None)

  /**
   * The client's view agrees with the server: the selected record is the
   * store's current record for that id, and the page shown is its page.
   */
  ghost predicate Synced(app: App, store: PdfStore)
    reads app, store
  {
    app.selected.Some? ==>
      && app.selected.value.id in store.docs
      && store.docs[app.selected.value.id] == app.selected.value
      && app.page == app.selected.value.currentPage
  }

  /** The user opens `doc` from the list. */
  method OpenStep(app: App, store: PdfStore, doc: PdfDocument) returns (sent: seq<Request>)
    requires store.Valid() && Synced(app, store)
    modifies app`selected, app`page, app`lastGesture, store`docs
    ensures store.Valid() && Synced(app, store)
    ensures doc.id in old(store.docs) ==>
              && store.docs == old(store.docs)[doc.id := WithOpened(old(store.docs)[doc.id], OpenRequest(None))]
              && app.selected == Some(store.docs[doc.id])
    ensures doc.id !in old(store.docs) ==>
              store.docs == old(store.docs) && app.selected == old(app.selected) && app.page == old(app.page)
  {
    var result := store.OpenPdf(doc.id, OpenRequest(None));
    sent := app.OpenDoc(doc, ReplyOf(result));
  }

  /** The user presses a page button, or types a page for `set`. */
  method ChangePageStep(app: App, store: PdfStore, mode: PageMode, val: Option<int>) returns (sent: seq<Request>)
    requires store.Valid() && Synced(app, store)
    modifies app`selected, app`page, app`lastGesture, store`docs
    ensures store.Valid() && Synced(app, store)
    ensures old(app.selected).None? ==> sent == [] && app.page == old(app.page) && store.docs == old(store.docs)
    ensures old(app.selected).Some? ==>
              && app.selected == Some(WithPageChanged(old(app.selected).value, PageRequest(mode, val)))
              && app.page == WithPageChanged(old(app.selected).value, PageRequest(mode, val)).currentPage
  {
    if app.selected.None? {
      sent := app.ChangePage(mode, val, NoReply);
      return;
    }
    var result := store.ChangePage(app.selected.value.id, PageRequest(mode, val));
    sent := app.ChangePage(mode, val, ReplyOf(result));
  }

  /** The user closes the selected document. */
  method CloseStep(app: App, store: PdfStore) returns (sent: seq<Request>)
    requires store.Valid() && Synced(app, store)
    modifies app`selected, app`lastGesture, store`docs
    ensures store.Valid() && Synced(app, store)
    ensures app.selected == None
    ensures old(app.selected).Some? ==>
              store.docs == old(store.docs)[old(app.selected).value.id := WithClosed(old(app.selected).value)]
  {
    if app.selected.None? {
      sent := app.CloseDoc(NoReply);
      return;
    }
    var result := store.ClosePdf(app.selected.value.id);
    sent := app.CloseDoc(ReplyOf(result));
  }

  /** The user picks a topic for the selected document; the list refresh is left as given. */
  method ClassifyStep(app: App, store: PdfStore, topic: string, listReply: Reply<seq<PdfDocument>>)
    returns (sent: seq<Request>)
    requires store.Valid() && Synced(app, store)
    modifies app`selected, app`page, app`lastGesture, app`allItems, store`docs
    ensures store.Valid() && Synced(app, store)
    ensures old(app.selected).Some? ==> app.selected == Some(WithTopic(old(app.selected).value, topic))
  {
    if app.selected.None? {
      sent := app.Classify(topic, NoReply, listReply);
      return;
    }
    var result := store.ClassifyPdf(app.selected.value.id, topic);
    sent := app.Classify(topic, ReplyOf(result), listReply);
  }

  /** The user deletes `id` from the list; the stored file's removal may fail. */
  method DeleteStep(app: App, store: PdfStore, id: int, unlinkFails: bool, listReply: Reply<seq<PdfDocument>>)
    returns (sent: seq<Request>)
    requires store.Valid() && Synced(app, store)
    modifies app`selected, app`lastGesture, app`allItems, store`docs, store`order, store`files
    ensures store.Valid() && Synced(app, store)
    ensures id !in store.docs
    ensures old(app.selected).Some? && old(app.selected).value.id == id ==> app.selected == None
  {
    var result := store.DeletePdf(id, unlinkFails);
    sent := app.DeleteDoc(id, ReplyOf(result), listReply);
  }

  /**
   * One firing of the capture interval, as written: when the client sends a
   * page request the store answers it and the client adopts the answer, which
   * also puts the debouncer's memory back at `none`.
   */
  method TickStep(app: App, store: PdfStore, inference: Option<Gesture>) returns (sent: seq<Request>)
    requires store.Valid() && Synced(app, store)
    modifies app`selected, app`page, app`lastGesture, store`docs
    ensures store.Valid() && Synced(app, store)
    ensures !(old(app.gesturesEnabled) && inference.Some? && inference.value != old(app.lastGesture)) ==>
              sent == [] && app.selected == old(app.selected) && app.page == old(app.page)
              && app.lastGesture == old(app.lastGesture) && store.docs == old(store.docs)
    ensures old(app.gesturesEnabled) && inference.Some? && inference.value != old(app.lastGesture)
            && (inference.value == NoneGesture || old(app.selected).None?) ==>
              sent == [] && app.selected == old(app.selected) && app.page == old(app.page)
              && app.lastGesture == inference.value && store.docs == old(store.docs)
    ensures old(app.gesturesEnabled) && inference.Some? && inference.value != old(app.lastGesture)
            && inference.value != NoneGesture && old(app.selected).Some? ==>
              var req := PageRequest(GestureCommand(inference.value).value, None);
              && |sent| == 1
              && app.selected == Some(WithPageChanged(old(app.selected).value, req))
              && app.page == app.selected.value.currentPage
              && app.lastGesture == NoneGesture
  {
    var reply := NoReply;
    if app.gesturesEnabled && inference.Some? && inference.value != app.lastGesture && app.selected.Some? {
      var cmd := GestureCommand(inference.value);
      if cmd.Some? {
        var result := store.ChangePage(app.selected.value.id, PageRequest(cmd.value, None));
        reply := ReplyOf(result);
      }
    }
    sent := app.GestureTick(inference, reply);
  }

  /** The same firing with the debouncer's memory kept across the page change. */
  method TickStepIntended(app: App, store: PdfStore, inference: Option<Gesture>) returns (sent: seq<Request>)
    requires store.Valid() && Synced(app, store)
    modifies app`selected, app`page, app`lastGesture, store`docs
    ensures store.Valid() && Synced(app, store)
    ensures old(app.gesturesEnabled) && inference.Some? ==> app.lastGesture == inference.value
    ensures !(old(app.gesturesEnabled) && inference.Some? && inference.value != old(app.lastGesture)) ==>
              sent == [] && app.selected == old(app.selected) && app.page == old(app.page)
              && store.docs == old(store.docs)
    ensures old(app.gesturesEnabled) && inference.Some? && inference.value != old(app.lastGesture)
            && (inference.value == NoneGesture || old(app.selected).None?) ==>
              sent == [] && app.selected == old(app.selected) && app.page == old(app.page)
              && store.docs == old(store.docs)
    ensures old(app.gesturesEnabled) && inference.Some? && inference.value != old(app.lastGesture)
            && inference.value != NoneGesture && old(app.selected).Some? ==>
              var req := PageRequest(GestureCommand(inference.value).value, None);
              && |sent| == 1
              && app.selected == Some(WithPageChanged(old(app.selected).value, req))
              && app.page == app.selected.value.currentPage
  {
    var reply := NoReply;
    if app.gesturesEnabled && inference.Some? && inference.value != app.lastGesture && app.selected.Some? {
      var cmd := GestureCommand(inference.value);
      if cmd.Some? {
        var result := store.ChangePage(app.selected.value.id, PageRequest(cmd.value, None));
        reply := ReplyOf(result);
      }
    }
    sent := app.GestureTickIntended(inference, reply);
  }

  /** An empty store after the upload of a readable three-page "informe.pdf": the record is new, closed, on page 1. */
  method UploadThreePages() returns (store: PdfStore, doc: PdfDocument)
    ensures fresh(store) && store.Valid()
    ensures doc.id in store.docs && store.docs[doc.id] == doc
    ensures doc.currentPage == 1 && doc.numPages == 3
  {
    store := new PdfStore({});
    PdfSuffixIsPdfName("informe");
    assert "informe" + ".pdf" == "informe.pdf";
    var uploaded := store.UploadPdf("informe.pdf", 1, Pages([NoText, NoText, NoText]), NoHttpClient,
                                    (p: Pattern, h: string) => false);
    doc := uploaded.value;
  }

  /**
   * A three-page document, freshly uploaded and opened on page 1, with
   * gestures on: returns the store and client, and the document's id.
   */
  method OpenThreePageDocument() returns (app: App, store: PdfStore, id: int)
    ensures fresh(app) && fresh(store)
    ensures store.Valid() && Synced(app, store)
    ensures app.gesturesEnabled && app.lastGesture == NoneGesture
    ensures app.selected.Some? && app.selected.value.id == id
    ensures app.selected.value.currentPage == 1 && app.selected.value.numPages == 3
  {
    var doc;
    store, doc := UploadThreePages();
    id := doc.id;
    app := new App();
    var _ := OpenStep(app, store, doc);
    app.ToggleGestures();
  }

  /**
   * A `next` gesture held over three frames, as written: every tick sends a
   * page request, so the page runs on to the end instead of turning once.
   */
  method HeldNextAsWritten() returns (requests: nat, pages: seq<int>)
    ensures requests == 3
    ensures pages == [2, 3, 3]
  {
    var app, store, id := OpenThreePageDocument();
    var s1 := TickStep(app, store, Some(NextGesture));
    var p1 := app.page;
    var s2 := TickStep(app, store, Some(NextGesture));
    var p2 := app.page;
    var s3 := TickStep(app, store, Some(NextGesture));
    var p3 := app.page;
    requests := |s1| + |s2| + |s3|;
    pages := [p1, p2, p3];
  }

  /** The same held gesture with the memory kept: one request, one page turned. */
  method HeldNextIntended() returns (requests: nat, pages: seq<int>)
    ensures requests == 1
    ensures pages == [2, 2, 2]
  {
    var app, store, id := OpenThreePageDocument();
    var s1 := TickStepIntended(app, store, Some(NextGesture));
    var p1 := app.page;
    var s2 := TickStepIntended(app, store, Some(NextGesture));
    var p2 := app.page;
    var s3 := TickStepIntended(app, store, Some(NextGesture));
    var p3 := app.page;
    requests := |s1| + |s2| + |s3|;
    pages := [p1, p2, p3];
  }
}
