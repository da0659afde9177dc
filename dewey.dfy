/**
 * Topic classification of an uploaded PDF (server/app/services/dewey.py):
 * the text of the first pages, a first-match search over an ordered table of
 * Dewey classes, and the fallback chain from the external classifier to the
 * local rules to a default label.
 *
 * Regular-expression search is a parameter `search(pattern, haystack)`, true
 * when `re.search` finds a match; the engine itself is not modelled.
 */
module Dewey {
  import opened Wrappers
  import opened Strings

  type Pattern = string

  /** A Dewey class: its code, its label, and the patterns whose match selects it. */
  datatype Rule = Rule(code: string, name: string, patterns: seq<Pattern>)

  /** The classes in the order they are tried. */
  const DeweyRules: seq<Rule> := [
    Rule("005", "Informática", [
      @"\bcomputaci[oó]n\b", @"\binform[aá]tica\b", @"\balgoritmo(s)?\b", @"\bprogramaci[oó]n\b",
      @"\bsoftware\b", @"\bdatos\b", @"\binteligencia artificial\b", @"\bIA\b"]),
    Rule("510", "Matemáticas", [@"\bmatem[aá]tica(s)?\b", @"\bc[aá]lculo\b", @"\b[aá]lgebra\b", @"\bgeometr[ií]a\b"]),
    Rule("530", "Física", [@"\bf[ií]sica\b", @"\benerg[ií]a\b", @"\bmec[aá]nica\b", @"\btermodin[aá]mica\b"]),
    Rule("540", "Química", [@"\bqu[ií]mica\b", @"\breacci[oó]n(es)?\b", @"\bat[oó]mo(s)?\b", @"\bmole[cú]la(s)?\b"]),
    Rule("570", "Biología", [@"\bbiolog[ií]a\b", @"\becolog[ií]a\b", @"\bgen[eé]tica\b", @"\borganismo(s)?\b"]),
    Rule("610", "Medicina", [@"\bmedicina\b", @"\bsalud\b", @"\bcl[ií]nico\b", @"\bterapia\b", @"\benh?fermedad(es)?\b"]),
    Rule("620", "Ingeniería", [@"\bingenier[ií]a\b", @"\bindustrial\b", @"\bmaterial(es)?\b", @"\bdiseño\b"]),
    Rule("780", "Música", [@"\bm[uú]sica\b", @"\bcomposici[oó]n\b", @"\binstrumento(s)?\b"]),
    Rule("796", "Deporte", [@"\bdeporte(s)?\b", @"\bf[uú]tbol\b", @"\bbaloncesto\b", @"\batletismo\b"]),
    Rule("320", "Ciencia política", [@"\bpol[ií]tica\b", @"\bestado\b", @"\bgobierno\b", @"\belecci[oó]n(es)?\b"]),
    Rule("330", "Economía", [@"\beconom[ií]a\b", @"\bfinanza(s)?\b", @"\bmercado\b", @"\bmacroeconom[ií]a\b"]),
    Rule("100", "Filosofía", [@"\bfilosof[ií]a\b", @"\b[eé]tica\b", @"\bl[oó]gica\b"]),
    Rule("200", "Religión", [@"\breligi[oó]n\b", @"\bbiblia\b", @"\bteolog[ií]a\b"]),
    Rule("400", "Lenguas", [@"\bling[uü][ií]stica\b", @"\bgram[aá]tica\b", @"\bidoma(s)?\b"]),
    Rule("800", "Literatura", [@"\bliteratura\b", @"\bpoes[ií]a\b", @"\bnarrativa\b", @"\bnovela\b"]),
    Rule("900", "Historia y geografía", [@"\bhistoria\b", @"\bgeograf[ií]a\b", @"\barqueolog[ií]a\b"])
  ]

  /** The label given when neither the external classifier nor any rule decides. */
  const DefaultTopic: string := "Obras generales"

  // ---------------------------------------------------------------------------
  // Text of the first pages

  /** What extracting the text of one page gives: some text, nothing (`None` or ""), or an exception. */
  datatype PageExtraction = Extracted(text: string) | NoText | ExtractionFails

  /** Opening the file with the PDF reader: it fails, or it yields the pages in order. */
  datatype PdfReading = ReaderFails | Pages(pages: seq<PageExtraction>)

  /** A page's contribution: its text, or "" when there is none or extraction raised. */
  function PageText(p: PageExtraction): string {
    match p
    case Extracted(t) => t
    case NoText => ""
    case ExtractionFails => ""
  }

  function PageTexts(pages: seq<PageExtraction>): (texts: seq<string>)
    ensures |texts| == |pages|
    ensures forall i :: 0 <= i < |pages| ==> texts[i] == PageText(pages[i])
  {
    seq(|pages|, i requires 0 <= i < |pages| => PageText(pages[i]))
  }

  /** How many pages are read: at most `maxPages`, none when `maxPages` is not positive. */
  function PagesUsed(count: nat, maxPages: int): (n: nat)
    ensures n <= count && n <= (if maxPages < 0 then 0 else maxPages)
    ensures n == count || n == maxPages || (maxPages <= 0 && n == 0)
  {
    if maxPages <= 0 then 0 else if count <= maxPages then count else maxPages
  }

  /** The text of the first `maxPages` pages joined by line breaks; "" when the reader fails. */
  function ExtractedText(reading: PdfReading, maxPages: int): (text: string)
    ensures reading.ReaderFails? || maxPages <= 0 ==> text == ""
  {
    match reading
    case ReaderFails => ""
    case Pages(pages) => JoinLines(PageTexts(pages[..PagesUsed(|pages|, maxPages)]))
  }

  /** The texts of one more page, read as prefixes. */
  lemma PageTextsStep(pages: seq<PageExtraction>, i: int)
    requires 0 <= i < |pages|
    ensures PageTexts(pages[..i + 1]) == PageTexts(pages[..i]) + [PageText(pages[i])]
  {
    assert pages[..i + 1][..i] == pages[..i];
  }

  /** `extract_text_from_pdf`: the loop over the pages, stopping at `maxPages`. */
  method ExtractTextFromPdf(reading: PdfReading, maxPages: int := 5) returns (text: string)
    ensures text == ExtractedText(reading, maxPages)
  {
    match reading
    case ReaderFails =>
      text := "";
    case Pages(pages) =>
      var texts: seq<string> := [];
      var i := 0;
      while i < |pages|
        invariant i <= PagesUsed(|pages|, maxPages)
        invariant texts == PageTexts(pages[..i])
      {
        if i >= maxPages {
          break;
        }
        PageTextsStep(pages, i);
        texts := texts + [PageText(pages[i])];
        i := i + 1;
      }
      text := JoinLines(texts);
  }

  /**
   * When no page text holds a line break, splitting the extracted text at line
   * breaks recovers one piece per page read, failed pages as "", and no more
   * pieces than `maxPages`.
   */
  lemma ExtractedTextLines(pages: seq<PageExtraction>, maxPages: int)
    requires PagesUsed(|pages|, maxPages) >= 1
    requires forall i :: 0 <= i < |pages| ==> '\n' !in PageText(pages[i])
    ensures var lines := SplitLines(ExtractedText(Pages(pages), maxPages));
            && |lines| == PagesUsed(|pages|, maxPages) <= maxPages
            && forall i :: 0 <= i < |lines| ==> lines[i] == PageText(pages[i])
  {
    var used := pages[..PagesUsed(|pages|, maxPages)];
    SplitJoin(PageTexts(used));
  }

  // ---------------------------------------------------------------------------
  // Local rules

  /** Some pattern of the list finds a match; the patterns are tried in order. */
  function AnyPatternMatches(patterns: seq<Pattern>, haystack: string, search: (Pattern, string) -> bool): (b: bool)
    ensures b <==> exists i :: 0 <= i < |patterns| && search(patterns[i], haystack)
  {
    if patterns == [] then false
    else search(patterns[0], haystack) || AnyPatternMatches(patterns[1..], haystack, search)
  }

  predicate RuleMatches(rule: Rule, haystack: string, search: (Pattern, string) -> bool) {
    AnyPatternMatches(rule.patterns, haystack, search)
  }

  /** The position of the first rule with a matching pattern, or `|rules|` when there is none. */
  function FirstMatch(rules: seq<Rule>, haystack: string, search: (Pattern, string) -> bool): (k: nat)
    ensures k <= |rules|
    ensures k < |rules| ==> RuleMatches(rules[k], haystack, search)
    ensures forall j :: 0 <= j < k ==> !RuleMatches(rules[j], haystack, search)
  {
    if rules == [] then 0
    else if RuleMatches(rules[0], haystack, search) then 0
    else 1 + FirstMatch(rules[1..], haystack, search)
  }

  /**
   * `classify_dewey_from_text`: nothing for empty text; otherwise the code and
   * label of the first class, in table order, with a pattern that matches the
   * lower-cased text; nothing when no class does.
   */
  function ClassifyDeweyFromText(text: string, search: (Pattern, string) -> bool): (r: Option<(string, string)>)
    ensures text == "" ==> r.None?
    ensures r.Some? ==>
              exists k :: 0 <= k < |DeweyRules| && r.value == (DeweyRules[k].code, DeweyRules[k].name)
                          && RuleMatches(DeweyRules[k], Lower(text), search)
                          && forall j :: 0 <= j < k ==> !RuleMatches(DeweyRules[j], Lower(text), search)
    ensures text != "" && r.None? ==>
              forall j :: 0 <= j < |DeweyRules| ==> !RuleMatches(DeweyRules[j], Lower(text), search)
  {
    if text == "" then None
    else
      var k := FirstMatch(DeweyRules, Lower(text), search);
      if k < |DeweyRules| then Some((DeweyRules[k].code, DeweyRules[k].name)) else None
  }

  /** The position of the first rule with this code, or `|rules|`. */
  function CodeIndex(rules: seq<Rule>, code: string): (k: nat)
    ensures k <= |rules|
    ensures k < |rules| ==> rules[k].code == code
    ensures forall j :: 0 <= j < k ==> rules[j].code != code
  {
    if rules == [] then 0
    else if rules[0].code == code then 0
    else 1 + CodeIndex(rules[1..], code)
  }

  /** `_label_from_dewey_code`: the label of the class with this code, or nothing for an unknown code. */
  function LabelFromDeweyCode(code: string): (r: Option<string>)
    ensures r.None? <==> forall i :: 0 <= i < |DeweyRules| ==> DeweyRules[i].code != code
    ensures r.Some? ==> exists i :: 0 <= i < |DeweyRules| && DeweyRules[i].code == code
                                    && DeweyRules[i].name == r.value
  {
    var k := CodeIndex(DeweyRules, code);
    if k < |DeweyRules| then Some(DeweyRules[k].name) else None
  }

  /** No two classes share a code. */
  lemma DeweyCodesDistinct()
    ensures forall i, j :: 0 <= i < j < |DeweyRules| ==> DeweyRules[i].code != DeweyRules[j].code
  {
  }

  /** Every class has a non-empty label. */
  lemma DeweyLabelsNonEmpty()
    ensures forall i :: 0 <= i < |DeweyRules| ==> DeweyRules[i].name != ""
  {
  }

  /** The code a text is classified under leads back to the label it was given. */
  lemma ClassifiedCodeHasLabel(text: string, search: (Pattern, string) -> bool)
    requires ClassifyDeweyFromText(text, search).Some?
    ensures var (code, name) := ClassifyDeweyFromText(text, search).value;
            LabelFromDeweyCode(code) == Some(name)
  {
    DeweyCodesDistinct();
    var (code, name) := ClassifyDeweyFromText(text, search).value;
    var k :| 0 <= k < |DeweyRules| && (code, name) == (DeweyRules[k].code, DeweyRules[k].name);
    assert CodeIndex(DeweyRules, code) == k;
  }

  /** The one upper-case pattern of the table. */
  const UppercaseAiPattern: Pattern := @"\bIA\b"

  /**
   * Matching runs on the lower-cased text, so the upper-case pattern for "IA"
   * can never fire, whatever the text, for any engine under which a match of
   * that pattern contains the letters "IA".
   */
  lemma UppercaseAiPatternNeverMatches(text: string, search: (Pattern, string) -> bool)
    requires forall hay :: search(UppercaseAiPattern, hay) ==> Contains(hay, "IA")
    ensures UppercaseAiPattern in DeweyRules[0].patterns
    ensures !search(UppercaseAiPattern, Lower(text))
  {
    assert DeweyRules[0].patterns[7] == UppercaseAiPattern;
    forall i | true
      ensures !OccursAt(Lower(text), "IA", i)
    {
      UpperIANotAt(text, i);
    }
    ContainsIffOccurs(Lower(text), "IA");
  }

  /** A lower-cased text holds no capital "I", so "IA" occurs nowhere in it. */
  lemma UpperIANotAt(text: string, i: int)
    ensures !OccursAt(Lower(text), "IA", i)
  {
    if 0 <= i <= |text| - 2 {
      assert Lower(text)[i..i + 2][0] == Lower(text)[i] != 'I';
    }
  }

  // ---------------------------------------------------------------------------
  // The fallback chain

  /**
   * What the call to the external classifier produced, reduced to what is read
   * from it. The three texts are the response's `final_general.code`,
   * `final_general.name` and `final_pred` as strings, "" when absent.
   */
  datatype RemoteReply =
    | NoHttpClient    // the `requests` package could not be imported
    | RemoteFails     // opening the file, the request or the decoding raised
    | RemoteAnswer(ok: bool, generalCode: string, generalName: string, finalPred: string)

  /** The topic the external classifier decides, if it decides one. */
  function RemoteTopic(reply: RemoteReply): (t: Option<string>)
    ensures t.Some? ==> t.value != "" && reply.RemoteAnswer? && reply.ok
    ensures reply.RemoteAnswer? && reply.ok && Strip(reply.generalCode) != "" && Strip(reply.generalName) != ""
            ==> t == Some(Strip(reply.generalCode) + ":" + Strip(reply.generalName))
    ensures reply.RemoteAnswer? && reply.ok && (Strip(reply.generalCode) == "" || Strip(reply.generalName) == "")
            ==> t == (if Strip(reply.finalPred) != "" then Some(Strip(reply.finalPred)) else None)
  {
    if reply.RemoteAnswer? && reply.ok then
      var code := Strip(reply.generalCode);
      var name := Strip(reply.generalName);
      if code != "" && name != "" then Some(code + ":" + name)
      else
        var pred := Strip(reply.finalPred);
        if pred != "" then Some(pred) else None
    else None
  }

  /** The topic the local rules decide from the first five pages: a table label, or the default. */
  function LocalTopic(reading: PdfReading, search: (Pattern, string) -> bool): (t: string)
    ensures t != ""
    ensures t == DefaultTopic || exists k :: 0 <= k < |DeweyRules| && t == DeweyRules[k].name
    ensures var found := ClassifyDeweyFromText(ExtractedText(reading, 5), search);
            && (found.Some? ==> t == found.value.1)
            && (found.None? ==> t == DefaultTopic)
  {
    DeweyLabelsNonEmpty();
    match ClassifyDeweyFromText(ExtractedText(reading, 5), search)
    case Some((_, name)) => name
    case None => DefaultTopic
  }

  /**
   * `classify_file`: the external classifier's answer when it gives one,
   * otherwise the local rules, otherwise the default; never empty.
   */
  function ClassifyFile(reply: RemoteReply, reading: PdfReading, search: (Pattern, string) -> bool): (topic: string)
    ensures topic != ""
    ensures RemoteTopic(reply).Some? ==> topic == RemoteTopic(reply).value
    ensures RemoteTopic(reply).None? ==> topic == LocalTopic(reading, search)
  {
    match RemoteTopic(reply)
    case Some(t) => t
    case None => LocalTopic(reading, search)
  }

  /** Whatever the reply, the topic is the remote answer, a table label or the default. */
  lemma ClassifyFileOutcomes(reply: RemoteReply, reading: PdfReading, search: (Pattern, string) -> bool)
    ensures var topic := ClassifyFile(reply, reading, search);
            || (reply.RemoteAnswer? && reply.ok && topic == Strip(reply.generalCode) + ":" + Strip(reply.generalName))
            || (reply.RemoteAnswer? && reply.ok && topic == Strip(reply.finalPred))
            || topic == DefaultTopic
            || exists k :: 0 <= k < |DeweyRules| && topic == DeweyRules[k].name
  {
  }

  /** A reply that is not OK, an exception or a missing HTTP client leaves the decision to the local rules. */
  lemma FailedRemoteFallsBack(reply: RemoteReply, reading: PdfReading, search: (Pattern, string) -> bool)
    requires !(reply.RemoteAnswer? && reply.ok)
    ensures ClassifyFile(reply, reading, search) == LocalTopic(reading, search)
  {
  }
}
