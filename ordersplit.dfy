/**
 * `PDFsIndividualFileExtraction_PartyName_OrderID.py` (and its identical copy
 * under `Utility/`): split each PDF into one file per document, named after
 * the party and order id of the document's first page.
 */
module OrderSplit {
  import opened Wrappers
  import opened PyStr
  import opened Sanitize
  import opened Fields
  import opened Pdf
  import opened Segmentation

  /** The `extract_party_name_and_order_id` result of each page, with the `_`-replacing sanitiser. */
  function OrderLabels(pageTexts: seq<string>): (labels: seq<Option<string>>)
  {
    seq(|pageTexts|, i requires 0 <= i < |pageTexts| => PartyAndOrder(ReplaceIllegal, pageTexts[i]))
  }

  /**
   * The body of the split loop of `demerge_and_rename_pdf` for page `pageNum`:
   * a truthy label closes the open span at `pageNum - 1` and opens a new one.
   */
  method AdvancePage(state: SplitState, splits: seq<Span>, pageNum: nat, newPartyName: Option<string>)
      returns (state': SplitState, splits': seq<Span>)
    requires state.SpanOpen? ==> state.start < pageNum
    ensures Machine(state', splits') == Step(Machine(state, splits), pageNum, newPartyName)
  {
    state', splits' := state, splits;
    if newPartyName.Some? && newPartyName.value != "" {
      if state.SpanOpen? {
        splits' := splits + [Span(state.start, pageNum - 1, state.party)];
      }
      state' := SpanOpen(pageNum, newPartyName.value);
    }
  }

  /** The split loop of `demerge_and_rename_pdf`: the `splits` list of `(start, end, name)` triples. */
  method DemergeSplits(doc: Document) returns (splits: seq<Span>)
    ensures splits == Segment(OrderLabels(doc.pageTexts))
  {
    ghost var labels := OrderLabels(doc.pageTexts);
    var numPages := |doc.pageTexts|;
    var state := NoOpenSpan;
    splits := [];
    for pageNum := 0 to numPages
      invariant Machine(state, splits) == Run(labels, pageNum)
    {
      var newPartyName := ExtractPartyAndOrder(ReplaceIllegal, doc.pageTexts[pageNum]);
      state, splits := AdvancePage(state, splits, pageNum, newPartyName);
    }
    if state.SpanOpen? {
      splits := splits + [Span(state.start, numPages - 1, state.party)];
    }
    RunSegments(labels);
  }

  /**
   * Every output of a document is named after its span's first page: a clean
   * name made of the sanitised, stripped party name above that page's last
   * `"M/s"` line, an underscore and the non-empty digit run of its last
   * `"ID : <digits>"` match.
   */
  lemma OutputNameShape(pageTexts: seq<string>, k: nat)
    requires k < |Segment(OrderLabels(pageTexts))|
    ensures var s := Segment(OrderLabels(pageTexts))[k];
            var lines := SplitLines(pageTexts[s.start]);
            var party := LastParty(lines, |lines|);
            var order := LastOrderId(lines, |lines|);
            && Clean(s.party)
            && party.Some? && party.value != "" && order.Some? && order.value != []
            && (forall i :: 0 <= i < |order.value| ==> IsDigit(order.value[i]))
            && s.party == Strip(Sanitized(ReplaceIllegal, party.value)) + "_" + order.value
  {
    var labels := OrderLabels(pageTexts);
    SpanLabel(labels, k);
    PartyAndOrderShape(ReplaceIllegal, pageTexts[Segment(labels)[k].start]);
  }

  /** The files the output loop writes, in span order: one per span, named `name + ".pdf"`. */
  function SpanOutputs(source: string, spans: seq<Span>): (writes: seq<OutputPdf>)
  {
    seq(|spans|, k requires 0 <= k < |spans| =>
          OutputPdf(spans[k].party + ".pdf", source, RangePages(PageRange(spans[k].start, spans[k].end))))
  }

  /** The output loop of `demerge_and_rename_pdf`: copy each span's pages into a new file and save it. */
  method WriteSpans(source: string, splits: seq<Span>) returns (writes: seq<OutputPdf>)
    ensures writes == SpanOutputs(source, splits)
  {
    writes := [];
    for k := 0 to |splits|
      invariant writes == SpanOutputs(source, splits)[..k]
    {
      var s := splits[k];
      var newPdf := CopyRange(PageRange(s.start, s.end));
      writes := writes + [OutputPdf(s.party + ".pdf", source, newPdf)];
    }
  }

  /** The pages of several outputs, output after output. */
  function OutputPages(writes: seq<OutputPdf>): seq<nat> {
    if writes == [] then [] else writes[0].pages + OutputPages(writes[1..])
  }

  /** The outputs of some spans copy the spans' pages, span after span. */
  lemma {:induction false} SpanOutputsPages(source: string, spans: seq<Span>)
    ensures OutputPages(SpanOutputs(source, spans)) == Flatten(Ranges(spans))
  {
    if spans != [] {
      assert SpanOutputs(source, spans)[1..] == SpanOutputs(source, spans[1..]);
      assert Ranges(spans)[1..] == Ranges(spans[1..]);
      SpanOutputsPages(source, spans[1..]);
    }
  }

  /** What one document contributes to the output directory. */
  function DocumentOutputs(doc: Document): seq<OutputPdf> {
    SpanOutputs(doc.name, Segment(OrderLabels(doc.pageTexts)))
  }

  /** `demerge_and_rename_pdf`: split one document and write one file per span. */
  method DemergeAndRenamePdf(doc: Document) returns (writes: seq<OutputPdf>)
    ensures writes == DocumentOutputs(doc)
  {
    var splits := DemergeSplits(doc);
    writes := WriteSpans(doc.name, splits);
  }

  /**
   * Together the files written for one document hold every page from its
   * first page with a composite name to its last page, each once and in
   * order; a document without such a page writes nothing.
   */
  lemma DocumentPages(doc: Document)
    ensures var ms := Markers(OrderLabels(doc.pageTexts));
            OutputPages(DocumentOutputs(doc)) == if ms == [] then [] else PyRange(ms[0], |doc.pageTexts|)
  {
    SpanOutputsPages(doc.name, Segment(OrderLabels(doc.pageTexts)));
    SegmentPages(OrderLabels(doc.pageTexts));
  }

  /**
   * Two spans with the same name write the same file, so the file left behind
   * holds exactly the pages of the last span with that name: the earlier
   * spans are lost.
   */
  lemma LastSpanWins(source: string, spans: seq<Span>, k: nat)
    requires k < |spans|
    requires forall j :: k < j < |spans| ==> spans[j].party != spans[k].party
    ensures var dir := DirectoryAfter(SpanOutputs(source, spans));
            && spans[k].party + ".pdf" in dir
            && dir[spans[k].party + ".pdf"].pages == PyRange(spans[k].start, spans[k].end + 1)
  {
    var writes := SpanOutputs(source, spans);
    forall j | k < j < |writes|
      ensures writes[j].name != writes[k].name
    {
      if writes[j].name == writes[k].name {
        PdfSuffixInjective(spans[j].party, spans[k].party);
      }
    }
    LastWriteWins(writes, k);
  }

  /** A file is written exactly for the names that label some span. */
  lemma OutputNames(source: string, spans: seq<Span>, name: string)
    ensures name in DirectoryAfter(SpanOutputs(source, spans)) <==>
              exists k :: 0 <= k < |spans| && spans[k].party + ".pdf" == name
  {
    var writes := SpanOutputs(source, spans);
    DirectoryNames(writes, name);
    if exists k :: 0 <= k < |writes| && writes[k].name == name {
      var k :| 0 <= k < |writes| && writes[k].name == name;
      assert spans[k].party + ".pdf" == name;
    }
    if exists k :: 0 <= k < |spans| && spans[k].party + ".pdf" == name {
      var k :| 0 <= k < |spans| && spans[k].party + ".pdf" == name;
      assert writes[k].name == name;
    }
  }

  /** The saves of `process_pdf_directory`, file after file, for the `.pdf` entries only. */
  function DirectoryWrites(listing: seq<Document>): seq<OutputPdf> {
    if listing == [] then []
    else
      var last := listing[|listing| - 1];
      DirectoryWrites(listing[..|listing| - 1]) + if IsPdfName(last.name) then DocumentOutputs(last) else []
  }

  /** `process_pdf_directory`: demerge every `.pdf` entry of the listing, in listing order. */
  method ProcessPdfDirectory(listing: seq<Document>) returns (processed: seq<string>, writes: seq<OutputPdf>)
    ensures processed == PdfNames(listing)
    ensures writes == DirectoryWrites(listing)
  {
    processed := [];
    writes := [];
    for i := 0 to |listing|
      invariant processed == PdfNames(listing[..i])
      invariant writes == DirectoryWrites(listing[..i])
    {
      var doc := listing[i];
      assert listing[..i + 1][..i] == listing[..i];
      if IsPdfName(doc.name) {
        processed := processed + [doc.name];
        var saved := DemergeAndRenamePdf(doc);
        writes := writes + saved;
      }
    }
    assert listing[..|listing|] == listing;
  }
}
