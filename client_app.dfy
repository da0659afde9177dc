/**
 * The reader's client state (client/src/App.tsx): the document list and its
 * filter box, the selected document and the page shown, and the gesture
 * debouncer that turns inferred labels into page requests.
 *
 * Every server call is replaced by its outcome, given as a parameter: a
 * `Reply` says whether the response was OK and what record it carried. Each
 * method returns the requests it sends, in order.
 */
module ClientApp {
  import opened Wrappers
  import opened Documents
  import opened HandGestures

  /** The outcome of one API call: the `ok` flag and the decoded body, if any. */
  datatype Reply<T> = Reply(ok: bool, data: Option<T>)

  /** The client adopts a response only when it is OK and carries a body. */
  predicate Adopted<T>(reply: Reply<T>) {
    reply.ok && reply.data.Some?
  }

  /** The calls the client makes to the document API. */
  datatype Request =
    | ListCall
    | UploadCall(name: string)
    | OpenCall(id: int, openBody: OpenRequest)
    | CloseCall(id: int)
    | PageCall(id: int, pageBody: PageRequest)
    | ClassifyCall(id: int, topic: string)
    | DeleteCall(id: int)

  // ---------------------------------------------------------------------------
  // The debouncer on its own

  /** The page command a label asks for: `next` and `prev`; `none` asks for nothing. */
  function GestureCommand(g: Gesture): (cmd: Option<PageMode>)
    ensures cmd.None? <==> g == NoneGesture
    ensures cmd == Some(Next) <==> g == NextGesture
    ensures cmd == Some(Prev) <==> g == PrevGesture
  {
    match g
    case NoneGesture => None
    case NextGesture => Some(Next)
    case PrevGesture => Some(Prev)
  }

  /**
   * One accepted label: the command it dispatches, if any, and the new memory.
   * A label equal to the memory does nothing; a different one dispatches its
   * command and becomes the memory, `none` included, which re-arms the debouncer.
   */
  function Debounce(last: Gesture, g: Gesture): (r: (Option<PageMode>, Gesture))
    ensures r.1 == g
    ensures r.0.Some? <==> g != last && g != NoneGesture
    ensures r.0.Some? ==> r.0 == GestureCommand(g) && r.0 != Some(Set)
  {
    if g != last then (GestureCommand(g), g) else (None, last)
  }

  /** The commands a sequence of labels dispatches when the memory is kept between them. */
  function Run(last: Gesture, gs: seq<Gesture>): (r: seq<PageMode>)
    ensures |r| <= |gs|
    ensures (forall i :: 0 <= i < |gs| ==> gs[i] == NoneGesture) ==> r == []
    decreases |gs|
  {
    if gs == [] then []
    else
      var (cmd, mem) := Debounce(last, gs[0]);
      (if cmd.Some? then [cmd.value] else []) + Run(mem, gs[1..])
  }

  /** Repeating the remembered label dispatches nothing. */
  lemma {:induction false} RepeatedLabelIsSilent(g: Gesture, n: nat)
    ensures Run(g, seq(n, _ => g)) == []
  {
    if n > 0 {
      assert seq(n, _ => g)[1..] == seq(n - 1, _ => g);
      RepeatedLabelIsSilent(g, n - 1);
    }
  }

  /**
   * A run of one label dispatches at most once: once if it differs from the
   * memory and is not `none`, otherwise never.
   */
  lemma RunOfOneLabel(last: Gesture, g: Gesture, n: nat)
    requires n >= 1
    ensures |Run(last, seq(n, _ => g))| == (if g != last && g != NoneGesture then 1 else 0)
  {
    assert seq(n, _ => g)[1..] == seq(n - 1, _ => g);
    RepeatedLabelIsSilent(g, n - 1);
  }

  /** Every dispatched command is `next` or `prev`, and no run dispatches more commands than it has labels. */
  lemma {:induction false} RunOnlyTurnsPages(last: Gesture, gs: seq<Gesture>)
    ensures |Run(last, gs)| <= |gs|
    ensures Set !in Run(last, gs)
    decreases |gs|
  {
    if gs != [] {
      RunOnlyTurnsPages(gs[0], gs[1..]);
    }
  }

  /** A `none` between two `next` labels re-arms the debouncer: both pages are turned. */
  lemma NoneReArms()
    ensures Run(NoneGesture, [NextGesture, NoneGesture, NextGesture]) == [Next, Next]
    ensures Run(NoneGesture, [NextGesture, NextGesture]) == [Next]
  {
    assert [NextGesture, NoneGesture, NextGesture][1..] == [NoneGesture, NextGesture];
    assert [NoneGesture, NextGesture][1..] == [NextGesture];
    assert [NextGesture, NextGesture][1..] == [NextGesture];
  }

  // ---------------------------------------------------------------------------
  // The component state

  class App {
    /** The last list the server returned. */
    var allItems: seq<PdfDocument>
    /** The text of the filter box. */
    var filter: string
    /** The open document, as the server last returned it. */
    var selected: Option<PdfDocument>
    /** The page shown. */
    var page: int
    /** Whether the camera and gesture loop are on. */
    var gesturesEnabled: bool
    /** The debouncer's memory (`lastGestureRef.current`) in the running capture effect. */
    var lastGesture: Gesture

    constructor ()
      ensures allItems == [] && filter == "" && selected == None && page == 1
      ensures !gesturesEnabled && lastGesture == NoneGesture
    {
      allItems := [];
      filter := "";
      selected := None;
      page := 1;
      gesturesEnabled := false;
      lastGesture := NoneGesture;
    }

    /**
     * `filteredItems`: with a blank filter the whole list; otherwise exactly the
     * items whose normalised topic or name contains the normalised filter, in
     * list order.
     */
    function FilteredItems(fold: string -> string): (r: seq<PdfDocument>)
      reads this
      ensures Normalized(Some(filter), fold) == "" ==> r == allItems
      ensures forall d :: d in r <==> d in allItems && MatchesNeedle(d, Normalized(Some(filter), fold), fold)
      ensures IsSubsequence(r, allItems)
    {
      var needle := Normalized(Some(filter), fold);
      FilteredByEmptyNeedle(allItems, fold);
      FilteredMembershipAll(allItems, needle, fold);
      FilteredIsSubsequence(allItems, needle, fold);
      if needle == "" then allItems else Filtered(allItems, needle, fold)
    }

    /** The text typed into the filter box. */
    method SetFilter(text: string)
      modifies this`filter
      ensures filter == text
    {
      filter := text;
    }

    /** `fetchList`: adopt the returned list; a failure keeps the old one. */
    method FetchList(reply: Reply<seq<PdfDocument>>) returns (sent: seq<Request>)
      modifies this`allItems
      ensures sent == [ListCall]
      ensures Adopted(reply) ==> allItems == reply.data.value
      ensures !Adopted(reply) ==> allItems == old(allItems)
    {
      sent := [ListCall];
      if Adopted(reply) {
        allItems := reply.data.value;
      }
    }

    /**
     * Adopt a record the server returned as the selection, and the page with it
     * when `withPage`. A new selection reruns the capture effect, which starts
     * over with the debouncer's memory at `none`. Without an adoptable body
     * nothing changes.
     */
    method AdoptRecord(reply: Reply<PdfDocument>, withPage: bool)
      modifies this`selected, this`page, this`lastGesture
      ensures Adopted(reply) ==> selected == reply.data && lastGesture == NoneGesture
      ensures Adopted(reply) ==> page == if withPage then reply.data.value.currentPage else old(page)
      ensures !Adopted(reply) ==> selected == old(selected) && page == old(page) && lastGesture == old(lastGesture)
    {
      if Adopted(reply) {
        selected := reply.data;
        if withPage {
          page := reply.data.value.currentPage;
        }
        lastGesture := NoneGesture;
      }
    }

    /** `openDoc`: ask to open `doc` with an empty body; on success select the returned record and show its page. */
    method OpenDoc(doc: PdfDocument, reply: Reply<PdfDocument>) returns (sent: seq<Request>)
      modifies this`selected, this`page, this`lastGesture
      ensures sent == [OpenCall(doc.id, OpenRequest(None))]
      ensures Adopted(reply) ==> selected == reply.data && page == reply.data.value.currentPage && lastGesture == NoneGesture
      ensures !Adopted(reply) ==> selected == old(selected) && page == old(page) && lastGesture == old(lastGesture)
    {
      sent := [OpenCall(doc.id, OpenRequest(None))];
      AdoptRecord(reply, true);
    }

    /** `closeDoc`: nothing without a selection; otherwise ask to close it and clear the selection on an OK response. */
    method CloseDoc(reply: Reply<PdfDocument>) returns (sent: seq<Request>)
      modifies this`selected, this`lastGesture
      ensures old(selected).None? ==> sent == [] && selected == old(selected) && lastGesture == old(lastGesture)
      ensures old(selected).Some? ==> sent == [CloseCall(old(selected).value.id)]
      ensures old(selected).Some? && reply.ok ==> selected == None && lastGesture == NoneGesture
      ensures old(selected).Some? && !reply.ok ==> selected == old(selected) && lastGesture == old(lastGesture)
    {
      if selected.None? {
        return [];
      }
      sent := [CloseCall(selected.value.id)];
      if reply.ok {
        selected := None;
        lastGesture := NoneGesture;
      }
    }

    /**
     * `changePage`: nothing without a selection; otherwise ask the server to move
     * the page and adopt the record and page it returns. The client never moves
     * the page itself.
     */
    method ChangePage(mode: PageMode, val: Option<int>, reply: Reply<PdfDocument>) returns (sent: seq<Request>)
      modifies this`selected, this`page, this`lastGesture
      ensures old(selected).None? ==> sent == [] && selected == old(selected) && page == old(page) && lastGesture == old(lastGesture)
      ensures old(selected).Some? ==> sent == [PageCall(old(selected).value.id, PageRequest(mode, val))]
      ensures old(selected).Some? && Adopted(reply) ==>
                selected == reply.data && page == reply.data.value.currentPage && lastGesture == NoneGesture
      ensures old(selected).Some? && !Adopted(reply) ==>
                selected == old(selected) && page == old(page) && lastGesture == old(lastGesture)
    {
      if selected.None? {
        return [];
      }
      sent := [PageCall(selected.value.id, PageRequest(mode, val))];
      AdoptRecord(reply, true);
    }

    /**
     * `classify`: nothing without a selection; otherwise ask to set the topic,
     * adopt the returned record (the page shown stays as it is) and refresh the list.
     */
    method Classify(topic: string, reply: Reply<PdfDocument>, listReply: Reply<seq<PdfDocument>>)
      returns (sent: seq<Request>)
      modifies this`selected, this`page, this`lastGesture, this`allItems
      ensures old(selected).None? ==>
                sent == [] && selected == old(selected) && lastGesture == old(lastGesture) && allItems == old(allItems)
      ensures page == old(page)
      ensures old(selected).Some? && Adopted(reply) ==>
                && sent == [ClassifyCall(old(selected).value.id, topic), ListCall]
                && selected == reply.data && lastGesture == NoneGesture
                && allItems == if Adopted(listReply) then listReply.data.value else old(allItems)
      ensures old(selected).Some? && !Adopted(reply) ==>
                && sent == [ClassifyCall(old(selected).value.id, topic)]
                && selected == old(selected) && lastGesture == old(lastGesture) && allItems == old(allItems)
    {
      if selected.None? {
        return [];
      }
      sent := [ClassifyCall(selected.value.id, topic)];
      if !Adopted(reply) {
        return;
      }
      AdoptRecord(reply, false);
      var more := FetchList(listReply);
      sent := sent + more;
    }

    /**
     * `deleteDoc`: ask to delete `id`; on an OK response clear the selection if
     * it is that document, and refresh the list.
     */
    method DeleteDoc(id: int, reply: Reply<bool>, listReply: Reply<seq<PdfDocument>>) returns (sent: seq<Request>)
      modifies this`selected, this`lastGesture, this`allItems
      ensures !reply.ok ==>
                sent == [DeleteCall(id)] && selected == old(selected) && lastGesture == old(lastGesture)
                && allItems == old(allItems)
      ensures reply.ok ==>
                && sent == [DeleteCall(id), ListCall]
                && allItems == (if Adopted(listReply) then listReply.data.value else old(allItems))
      ensures reply.ok && old(selected).Some? && old(selected).value.id == id ==>
                selected == None && lastGesture == NoneGesture
      ensures reply.ok && !(old(selected).Some? && old(selected).value.id == id) ==>
                selected == old(selected) && lastGesture == old(lastGesture)
    {
      sent := [DeleteCall(id)];
      if !reply.ok {
        return;
      }
      if selected.Some? && selected.value.id == id {
        selected := None;
        lastGesture := NoneGesture;
      }
      var more := FetchList(listReply);
      sent := sent + more;
    }

    /**
     * `onUpload`: send the file; on success clear the filter, refresh the list
     * and open the created document.
     */
    method OnUpload(name: string, reply: Reply<PdfDocument>, listReply: Reply<seq<PdfDocument>>,
                    openReply: Reply<PdfDocument>) returns (sent: seq<Request>)
      modifies this`filter, this`allItems, this`selected, this`page, this`lastGesture
      ensures !Adopted(reply) ==>
                && sent == [UploadCall(name)]
                && filter == old(filter) && allItems == old(allItems)
                && selected == old(selected) && page == old(page) && lastGesture == old(lastGesture)
      ensures Adopted(reply) ==>
                && sent == [UploadCall(name), ListCall, OpenCall(reply.data.value.id, OpenRequest(None))]
                && filter == ""
                && allItems == (if Adopted(listReply) then listReply.data.value else old(allItems))
      ensures Adopted(reply) && Adopted(openReply) ==>
                selected == openReply.data && page == openReply.data.value.currentPage && lastGesture == NoneGesture
      ensures Adopted(reply) && !Adopted(openReply) ==>
                selected == old(selected) && page == old(page) && lastGesture == old(lastGesture)
    {
      sent := [UploadCall(name)];
      if !Adopted(reply) {
        return;
      }
      var created := reply.data.value;
      filter := "";
      var listed := FetchList(listReply);
      var openCalls := OpenDoc(created, openReply);
      sent := sent + listed + openCalls;
    }

    /** The gesture button: turning gestures on or off reruns the capture effect, which starts with memory `none`. */
    method ToggleGestures()
      modifies this`gesturesEnabled, this`lastGesture
      ensures gesturesEnabled == !old(gesturesEnabled)
      ensures lastGesture == NoneGesture
    {
      gesturesEnabled := !gesturesEnabled;
      lastGesture := NoneGesture;
    }

    /**
     * One firing of the capture interval, as written: `inference` is the label
     * the server inferred for the frame, or `None` when that call failed
     * (as every call does while the inference route is not mounted).
     * A label different from the memory dispatches its page command (without
     * waiting for it) and is recorded at once; the page response arrives after
     * that and, when adopted, reruns the capture effect, so the memory is back
     * at `none` and a held gesture turns the page again on the next tick.
     */
    method GestureTick(inference: Option<Gesture>, pageReply: Reply<PdfDocument>) returns (sent: seq<Request>)
      modifies this`selected, this`page, this`lastGesture
      ensures !old(gesturesEnabled) || inference.None? || inference.value == old(lastGesture) ==>
                sent == [] && selected == old(selected) && page == old(page) && lastGesture == old(lastGesture)
      ensures old(gesturesEnabled) && inference.Some? && inference.value != old(lastGesture) ==>
                var cmd := Debounce(old(lastGesture), inference.value).0;
                && (cmd.None? || old(selected).None? ==>
                      sent == [] && selected == old(selected) && page == old(page) && lastGesture == inference.value)
                && (cmd.Some? && old(selected).Some? ==>
                      && sent == [PageCall(old(selected).value.id, PageRequest(cmd.value, None))]
                      && (Adopted(pageReply) ==>
                            selected == pageReply.data && page == pageReply.data.value.currentPage
                            && lastGesture == NoneGesture)
                      && (!Adopted(pageReply) ==>
                            selected == old(selected) && page == old(page) && lastGesture == inference.value))
    {
      sent := [];
      if !gesturesEnabled || inference.None? {
        return;
      }
      var g := inference.value;
      if g != lastGesture {
        var cmd := GestureCommand(g);
        // The label is recorded synchronously, before the page response is handled.
        lastGesture := g;
        if cmd.Some? {
          sent := ChangePage(cmd.value, None, pageReply);
        }
      }
    }

    /**
     * One firing of the capture interval with the memory kept across the page
     * change it causes: after the response is handled the memory is the label
     * just accepted, exactly as `Debounce` says.
     */
    method GestureTickIntended(inference: Option<Gesture>, pageReply: Reply<PdfDocument>) returns (sent: seq<Request>)
      modifies this`selected, this`page, this`lastGesture
      ensures !old(gesturesEnabled) || inference.None? ==>
                sent == [] && selected == old(selected) && page == old(page) && lastGesture == old(lastGesture)
      ensures old(gesturesEnabled) && inference.Some? ==>
                var (cmd, mem) := Debounce(old(lastGesture), inference.value);
                && lastGesture == mem
                && (cmd.None? || old(selected).None? ==> sent == [] && selected == old(selected) && page == old(page))
                && (cmd.Some? && old(selected).Some? ==>
                      && sent == [PageCall(old(selected).value.id, PageRequest(cmd.value, None))]
                      && (Adopted(pageReply) ==> selected == pageReply.data && page == pageReply.data.value.currentPage)
                      && (!Adopted(pageReply) ==> selected == old(selected) && page == old(page)))
    {
      sent := [];
      if !gesturesEnabled || inference.None? {
        return;
      }
      var g := inference.value;
      var (cmd, mem) := Debounce(lastGesture, g);
      if cmd.Some? {
        sent := ChangePage(cmd.value, None, pageReply);
      }
      lastGesture := mem;
    }
  }
}
