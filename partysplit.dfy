/**
 * `singlePDF_MultiExtraction_PartyName.py` (and its identical copy under
 * `Utility/`): split one PDF by party name, grouping every span of one party
 * under one key, and write one output per party.
 */
module PartySplit {
  import opened Wrappers
  import opened PyStr
  import opened Sanitize
  import opened Fields
  import opened Pdf
  import opened Segmentation

  /** The `extract_party_name` result of each page. */
  function PartyLabels(pageTexts: seq<string>): (labels: seq<Option<string>>)
  {
    seq(|pageTexts|, i requires 0 <= i < |pageTexts| => PartyName(pageTexts[i]))
  }

  /**
   * The `splits` defaultdict: its keys in insertion order (the order
   * `splits.items()` visits them) and the list of ranges under each key.
   */
  datatype PartySplits = PartySplits(order: seq<string>, ranges: map<string, seq<PageRange>>)

  /** The parties of `spans` in order of first appearance. */
  function FirstSeen(spans: seq<Span>): seq<string> {
    if spans == [] then []
    else
      var seen := FirstSeen(spans[..|spans| - 1]);
      var party := spans[|spans| - 1].party;
      if party in seen then seen else seen + [party]
  }

  /** The ranges of the spans labelled `party`, in span order. */
  function RangesOf(spans: seq<Span>, party: string): seq<PageRange> {
    if spans == [] then []
    else
      var last := spans[|spans| - 1];
      RangesOf(spans[..|spans| - 1], party) + if last.party == party then [PageRange(last.start, last.end)] else []
  }

  /** The keys are the parties of the spans, each once. */
  lemma {:induction false} FirstSeenMembers(spans: seq<Span>, party: string)
    ensures party in FirstSeen(spans) <==> exists k :: 0 <= k < |spans| && spans[k].party == party
    ensures forall i, j :: 0 <= i < j < |FirstSeen(spans)| ==> FirstSeen(spans)[i] != FirstSeen(spans)[j]
  {
    if spans != [] {
      var init := spans[..|spans| - 1];
      FirstSeenMembers(init, party);
      if exists k :: 0 <= k < |init| && init[k].party == party {
        var k :| 0 <= k < |init| && init[k].party == party;
        assert spans[k].party == party;
      }
      if exists k :: 0 <= k < |spans| && spans[k].party == party {
        var k :| 0 <= k < |spans| && spans[k].party == party;
        if k < |init| {
          assert init[k].party == party;
        }
      }
    }
  }

  /** A party that labels no span has no ranges. */
  lemma {:induction false} RangesOfUnseen(spans: seq<Span>, party: string)
    requires party !in FirstSeen(spans)
    ensures RangesOf(spans, party) == []
  {
    if spans != [] {
      var init := spans[..|spans| - 1];
      assert party !in FirstSeen(init);
      RangesOfUnseen(init, party);
    }
  }

  /** `splits[party].append(r)` on a defaultdict: a new key is inserted at the end with an empty list first. */
  function AddRange(g: PartySplits, party: string, r: PageRange): PartySplits {
    var ranges := if party in g.ranges then g.ranges else g.ranges[party := []];
    PartySplits(if party in g.ranges then g.order else g.order + [party], ranges[party := ranges[party] + [r]])
  }

  /** The dictionary built by appending each span's range under its party, span after span. */
  function Group(spans: seq<Span>): (g: PartySplits)
    ensures forall party :: party in g.order <==> party in g.ranges
    ensures forall i, j :: 0 <= i < j < |g.order| ==> g.order[i] != g.order[j]
  {
    if spans == [] then PartySplits([], map[])
    else
      var last := spans[|spans| - 1];
      AddRange(Group(spans[..|spans| - 1]), last.party, PageRange(last.start, last.end))
  }

  /** Closing one more span is one append under its party. */
  lemma GroupAppend(spans: seq<Span>, s: Span)
    ensures Group(spans + [s]) == AddRange(Group(spans), s.party, PageRange(s.start, s.end))
  {
    var all := spans + [s];
    assert all[..|all| - 1] == spans;
  }

  /**
   * The dictionary agrees with its reference definitions: its keys are the
   * parties in order of first appearance, and each key holds exactly the
   * ranges of the spans with that party, in span order.
   */
  lemma {:induction false} GroupContents(spans: seq<Span>)
    ensures Group(spans).order == FirstSeen(spans)
    ensures forall party :: party in Group(spans).ranges <==> party in FirstSeen(spans)
    ensures forall party :: party in Group(spans).ranges ==> Group(spans).ranges[party] == RangesOf(spans, party)
  {
    if spans != [] {
      var init := spans[..|spans| - 1];
      var last := spans[|spans| - 1];
      GroupContents(init);
      if last.party !in FirstSeen(init) {
        RangesOfUnseen(init, last.party);
      }
      forall party | party in Group(spans).ranges
        ensures Group(spans).ranges[party] == RangesOf(spans, party)
      {
        if party != last.party {
          assert RangesOf(spans, party) == RangesOf(init, party) + [];
        }
      }
    }
  }

  /** One `splits[party].append((start, end))` on the dictionary held as its key order and its map. */
  method AppendRange(order: seq<string>, ranges: map<string, seq<PageRange>>, party: string, r: PageRange)
    returns (order': seq<string>, ranges': map<string, seq<PageRange>>)
    ensures PartySplits(order', ranges') == AddRange(PartySplits(order, ranges), party, r)
  {
    order', ranges' := order, ranges;
    if party !in ranges' {
      order' := order' + [party];
      ranges' := ranges'[party := []];
    }
    ranges' := ranges'[party := ranges'[party] + [r]];
  }

  /**
   * The body of the loop of `split_pdf_by_party_name` for page `pageNum`: a
   * truthy name closes the open span at `pageNum - 1`, appending its range
   * under its name, and opens a new one. `closed` are the spans closed so far.
   */
  method AdvancePage(state: SplitState, order: seq<string>, ranges: map<string, seq<PageRange>>,
                     pageNum: nat, newPartyName: Option<string>, ghost closed: seq<Span>)
    returns (state': SplitState, order': seq<string>, ranges': map<string, seq<PageRange>>)
    requires state.SpanOpen? ==> state.start < pageNum
    requires PartySplits(order, ranges) == Group(closed)
    ensures state' == Step(Machine(state, closed), pageNum, newPartyName).state
    ensures PartySplits(order', ranges') == Group(Step(Machine(state, closed), pageNum, newPartyName).closed)
  {
    state', order', ranges' := state, order, ranges;
    if newPartyName.Some? && newPartyName.value != "" {
      if state.SpanOpen? {
        GroupAppend(closed, Span(state.start, pageNum - 1, state.party));
        order', ranges' := AppendRange(order, ranges, state.party, PageRange(state.start, pageNum - 1));
      }
      state' := SpanOpen(pageNum, newPartyName.value);
    }
  }

  /** After the loop of `split_pdf_by_party_name`: the span still open ends at the last page. */
  method CloseLast(state: SplitState, order: seq<string>, ranges: map<string, seq<PageRange>>,
                   numPages: nat, ghost closed: seq<Span>)
    returns (order': seq<string>, ranges': map<string, seq<PageRange>>)
    requires state.SpanOpen? ==> state.start < numPages
    requires PartySplits(order, ranges) == Group(closed)
    ensures PartySplits(order', ranges') == Group(Close(Machine(state, closed), numPages))
  {
    order', ranges' := order, ranges;
    if state.SpanOpen? {
      GroupAppend(closed, Span(state.start, numPages - 1, state.party));
      order', ranges' := AppendRange(order, ranges, state.party, PageRange(state.start, numPages - 1));
    }
  }

  /** `split_pdf_by_party_name`: one pass over the pages, appending a range whenever a span closes. */
  method SplitByPartyName(doc: Document) returns (splits: PartySplits)
    ensures splits == Group(Segment(PartyLabels(doc.pageTexts)))
  {
    ghost var labels := PartyLabels(doc.pageTexts);
    ghost var closed: seq<Span> := [];
    var numPages := |doc.pageTexts|;
    var state := NoOpenSpan;
    var order: seq<string> := [];
    var ranges: map<string, seq<PageRange>> := map[];
    for pageNum := 0 to numPages
      invariant Machine(state, closed) == Run(labels, pageNum)
      invariant PartySplits(order, ranges) == Group(closed)
    {
      var newPartyName := ExtractPartyName(doc.pageTexts[pageNum]);
      ghost var m := Step(Machine(state, closed), pageNum, newPartyName);
      state, order, ranges := AdvancePage(state, order, ranges, pageNum, newPartyName, closed);
      closed := m.closed;
    }
    order, ranges := CloseLast(state, order, ranges, numPages, closed);
    RunSegments(labels);
    splits := PartySplits(order, ranges);
  }

  // ---------------------------------------------------------------------------
  // What each party's output holds

  /** Every range of `party` is the range of a span labelled `party`, and the other way round. */
  lemma {:induction false} RangesOfMember(spans: seq<Span>, party: string, r: PageRange)
    ensures r in RangesOf(spans, party) <==>
              exists k :: 0 <= k < |spans| && spans[k].party == party && r == PageRange(spans[k].start, spans[k].end)
  {
    if spans != [] {
      var init := spans[..|spans| - 1];
      RangesOfMember(init, party, r);
      if exists k :: 0 <= k < |init| && init[k].party == party && r == PageRange(init[k].start, init[k].end) {
        var k :| 0 <= k < |init| && init[k].party == party && r == PageRange(init[k].start, init[k].end);
        assert spans[k] == init[k];
      }
      if exists k :: 0 <= k < |spans| && spans[k].party == party && r == PageRange(spans[k].start, spans[k].end) {
        var k :| 0 <= k < |spans| && spans[k].party == party && r == PageRange(spans[k].start, spans[k].end);
        if k < |init| {
          assert init[k] == spans[k];
        }
      }
    }
  }

  /** The spans of one party, taken out of ascending spans, are still ascending. */
  lemma {:induction false} RangesOfAscending(spans: seq<Span>, party: string)
    requires Ascending(Ranges(spans))
    ensures Ascending(RangesOf(spans, party))
  {
    if spans != [] {
      var init := spans[..|spans| - 1];
      var last := spans[|spans| - 1];
      assert Ascending(Ranges(init)) by {
        assert forall k :: 0 <= k < |init| ==> Ranges(init)[k] == Ranges(spans)[k];
      }
      RangesOfAscending(init, party);
      if last.party == party {
        var rs := RangesOf(init, party);
        var all := rs + [PageRange(last.start, last.end)];
        forall k | 0 <= k < |rs|
          ensures rs[k].end < last.start
        {
          RangesOfMember(init, party, rs[k]);
          var i :| 0 <= i < |init| && init[i].party == party && rs[k] == PageRange(init[i].start, init[i].end);
          assert Ranges(spans)[i].end < Ranges(spans)[|spans| - 1].start;
        }
        assert Ranges(spans)[|spans| - 1].start <= Ranges(spans)[|spans| - 1].end;
        assert all == RangesOf(spans, party);
        assert Ascending(all) by {
          forall k | 0 <= k < |all|
            ensures all[k].start <= all[k].end
          {
            if k < |rs| {
              assert all[k] == rs[k];
            }
          }
          forall k, l | 0 <= k < l < |all|
            ensures all[k].end < all[l].start
          {
            if l < |rs| {
              assert all[k] == rs[k] && all[l] == rs[l];
            } else {
              assert all[k] == rs[k];
            }
          }
        }
      } else {
        assert RangesOf(spans, party) == RangesOf(init, party) + [];
      }
    }
  }

  /** Every key, and so every output name before `.pdf`, is a non-empty, clean and stripped party name. */
  lemma PartyKeysClean(pageTexts: seq<string>, party: string)
    requires party in Group(Segment(PartyLabels(pageTexts))).ranges
    ensures party != "" && Clean(party) && Strip(party) == party
  {
    var labels := PartyLabels(pageTexts);
    GroupContents(Segment(labels));
    FirstSeenMembers(Segment(labels), party);
    var k :| 0 <= k < |Segment(labels)| && Segment(labels)[k].party == party;
    SpanLabel(labels, k);
  }

  /**
   * Each span starts on a page whose text names a non-empty party, and is
   * keyed by that name; the pages after it up to the span's end name no
   * party or one that sanitises to the empty string.
   */
  lemma SpanPartyName(pageTexts: seq<string>, k: nat)
    requires k < |Segment(PartyLabels(pageTexts))|
    ensures var s := Segment(PartyLabels(pageTexts))[k];
            && PartyName(pageTexts[s.start]) == Some(s.party)
            && s.party != "" && Clean(s.party) && Strip(s.party) == s.party
            && forall p :: s.start < p <= s.end ==> PartyName(pageTexts[p]) in {None, Some("")}
  {
    var labels := PartyLabels(pageTexts);
    var s := Segment(labels)[k];
    SpanLabel(labels, k);
    forall p | s.start < p <= s.end
      ensures PartyName(pageTexts[p]) in {None, Some("")}
    {
      NoMarkerInsideSpan(labels, k, p);
    }
  }

  /** The spans of a document are ascending: each lies wholly before the next. */
  lemma SegmentAscending(labels: seq<Option<string>>)
    ensures Ascending(Ranges(Segment(labels)))
  {
    var rs := Ranges(Segment(labels));
    var ms := Markers(labels);
    forall k, l | 0 <= k < l < |rs|
      ensures rs[k].end < rs[l].start
    {
      assert ms[k + 1] <= ms[l];
    }
  }

  /**
   * The output of one party holds its pages in strictly increasing order, so
   * spans of one party are merged in ascending page order and no page is
   * repeated.
   */
  lemma MergedPagesAscending(labels: seq<Option<string>>, party: string)
    requires party in Group(Segment(labels)).ranges
    ensures StrictlyIncreasing(Flatten(Group(Segment(labels)).ranges[party]))
  {
    GroupContents(Segment(labels));
    SegmentAscending(labels);
    RangesOfAscending(Segment(labels), party);
    FlattenIncreasing(RangesOf(Segment(labels), party));
  }

  /** A page is in a party's output exactly when it lies in a span labelled with that party. */
  lemma MergedPagesMember(labels: seq<Option<string>>, party: string, p: nat)
    requires party in Group(Segment(labels)).ranges
    ensures p in Flatten(Group(Segment(labels)).ranges[party]) <==>
              exists k :: 0 <= k < |Segment(labels)| && Segment(labels)[k].party == party && InSpan(p, Segment(labels)[k])
  {
    var spans := Segment(labels);
    GroupContents(spans);
    var rs := RangesOf(spans, party);
    FlattenMember(rs, p);
    if p in Flatten(rs) {
      var j :| 0 <= j < |rs| && InRange(p, rs[j]);
      RangesOfMember(spans, party, rs[j]);
    }
    if exists k :: 0 <= k < |spans| && spans[k].party == party && InSpan(p, spans[k]) {
      var k :| 0 <= k < |spans| && spans[k].party == party && InSpan(p, spans[k]);
      RangesOfMember(spans, party, PageRange(spans[k].start, spans[k].end));
      var j :| 0 <= j < |rs| && rs[j] == PageRange(spans[k].start, spans[k].end);
      assert InRange(p, rs[j]);
    }
  }

  // ---------------------------------------------------------------------------
  // save_split_pdfs and process_pdf_directory

  /** The nested copy loops: every page of every range, range after range. */
  method CopyRanges(ranges: seq<PageRange>) returns (pages: seq<nat>)
    ensures pages == Flatten(ranges)
  {
    pages := [];
    for j := 0 to |ranges|
      invariant pages == Flatten(ranges[..j])
    {
      var copied := CopyRange(ranges[j]);
      assert ranges[..j + 1] == ranges[..j] + [ranges[j]];
      FlattenAppend(ranges[..j], [ranges[j]]);
      assert Flatten([ranges[j]]) == RangePages(ranges[j]) + Flatten([]);
      pages := pages + copied;
    }
    assert ranges[..|ranges|] == ranges;
  }

  /** The files `save_split_pdfs` writes: one per key, in key order, named `party + ".pdf"`. */
  function SavedOutputs(source: string, splits: PartySplits): (writes: seq<OutputPdf>)
    requires forall party :: party in splits.order ==> party in splits.ranges
  {
    seq(|splits.order|, j requires 0 <= j < |splits.order| =>
          OutputPdf(splits.order[j] + ".pdf", source, Flatten(splits.ranges[splits.order[j]])))
  }

  /** `save_split_pdfs`: one output file per party holding all its ranges. */
  method SaveSplitPdfs(source: string, splits: PartySplits) returns (writes: seq<OutputPdf>)
    requires forall party :: party in splits.order ==> party in splits.ranges
    ensures writes == SavedOutputs(source, splits)
  {
    writes := [];
    for j := 0 to |splits.order|
      invariant writes == SavedOutputs(source, splits)[..j]
    {
      var party := splits.order[j];
      var newPdf := CopyRanges(splits.ranges[party]);
      writes := writes + [OutputPdf(party + ".pdf", source, newPdf)];
    }
  }

  /**
   * Each party of a document gets its own file, and the file holds all the
   * pages of that party: nothing written for one party is overwritten by
   * another party of the same document.
   */
  lemma EveryPartyKept(source: string, spans: seq<Span>, party: string)
    requires party in Group(spans).ranges
    ensures var writes := SavedOutputs(source, Group(spans));
            var dir := DirectoryAfter(writes);
            && party + ".pdf" in dir
            && dir[party + ".pdf"] == OutputPdf(party + ".pdf", source, Flatten(Group(spans).ranges[party]))
  {
    var g := Group(spans);
    var writes := SavedOutputs(source, g);
    var k :| 0 <= k < |g.order| && g.order[k] == party;
    forall j | k < j < |writes|
      ensures writes[j].name != writes[k].name
    {
      if writes[j].name == writes[k].name {
        PdfSuffixInjective(g.order[j], g.order[k]);
      }
    }
    LastWriteWins(writes, k);
  }

  /** What one document contributes to the output directory. */
  function DocumentOutputs(doc: Document): seq<OutputPdf> {
    SavedOutputs(doc.name, Group(Segment(PartyLabels(doc.pageTexts))))
  }

  /** The saves of `process_pdf_directory`, file after file, for the `.pdf` entries only. */
  function DirectoryWrites(listing: seq<Document>): seq<OutputPdf> {
    if listing == [] then []
    else
      var last := listing[|listing| - 1];
      DirectoryWrites(listing[..|listing| - 1]) + if IsPdfName(last.name) then DocumentOutputs(last) else []
  }

  /** `process_pdf_directory`: split and save every `.pdf` entry of the listing, in listing order. */
  method ProcessPdfDirectory(listing: seq<Document>) returns (processed: seq<string>, writes: seq<OutputPdf>)
    ensures processed == PdfNames(listing)
    ensures writes == DirectoryWrites(listing)
  {
    processed := [];
    writes := [];
    for i := 0 to |listing|
      invariant processed == PdfNames(listing[..i])
      invariant writes == DirectoryWrites(listing[..i])
    {
      var doc := listing[i];
      assert listing[..i + 1][..i] == listing[..i];
      if IsPdfName(doc.name) {
        processed := processed + [doc.name];
        var splits := SplitByPartyName(doc);
        var saved := SaveSplitPdfs(doc.name, splits);
        writes := writes + saved;
      }
    }
    assert listing[..|listing|] == listing;
  }
}
