/**
 * The page-segmentation state machine shared by `split_pdf_by_party_name`
 * and `demerge_and_rename_pdf`, stated on the per-page extractor results.
 *
 * A page is a MARKER when its extractor result is truthy (not `None` and not
 * the empty string). The reference definition is closed-form: the k-th span
 * starts at the k-th marker and ends one page before the next marker, or on
 * the last page. The splitting loops are proved equal to it, and the
 * partition properties are proved about it.
 */
module Segmentation {
  import opened Wrappers
  import opened Pdf

  /** One recorded split `(start_page, end_page, party_name)`, both pages inclusive. */
  datatype Span = Span(start: nat, end: nat, party: string)

  /** `current_party_name` / `current_start_page`: no span open yet, or one open since `start`. */
  datatype SplitState = NoOpenSpan | SpanOpen(start: nat, party: string)

  /** Python truthiness of an extractor result. */
  predicate IsMarker(result: Option<string>) {
    result.Some? && result.value != ""
  }

  /** The marker pages among pages `0 .. p-1`, in increasing order. */
  function MarkersBelow(labels: seq<Option<string>>, p: nat): (ms: seq<nat>)
    requires p <= |labels|
    ensures forall k :: 0 <= k < |ms| ==> ms[k] < p && IsMarker(labels[ms[k]])
    ensures forall k, l :: 0 <= k < l < |ms| ==> ms[k] < ms[l]
  {
    if p == 0 then []
    else MarkersBelow(labels, p - 1) + if IsMarker(labels[p - 1]) then [p - 1] else []
  }

  /** Every marker page below `p` is among `MarkersBelow(labels, p)`. */
  lemma {:induction false} MarkersBelowComplete(labels: seq<Option<string>>, p: nat, q: nat)
    requires q < p <= |labels| && IsMarker(labels[q])
    ensures q in MarkersBelow(labels, p)
  {
    if q < p - 1 {
      MarkersBelowComplete(labels, p - 1, q);
    }
  }

  /** All marker pages of the document, in increasing order. */
  function Markers(labels: seq<Option<string>>): seq<nat> {
    MarkersBelow(labels, |labels|)
  }

  /** Marker positions that a span list can be built from. */
  predicate ValidMarkers(labels: seq<Option<string>>, ms: seq<nat>) {
    && (forall k :: 0 <= k < |ms| ==> ms[k] < |labels| && IsMarker(labels[ms[k]]))
    && (forall k, l :: 0 <= k < l < |ms| ==> ms[k] < ms[l])
  }

  /** The last page of the k-th span: one before the next marker, or the last page. */
  function SpanEnd(labels: seq<Option<string>>, ms: seq<nat>, k: nat): nat
    requires ValidMarkers(labels, ms) && k < |ms|
  {
    assert ms[k] < |labels|;
    if k + 1 < |ms| then assert ms[k] < ms[k + 1]; ms[k + 1] - 1 else |labels| - 1
  }

  /** The spans the state machine records for a document whose pages yield `labels`. */
  function Segment(labels: seq<Option<string>>): (spans: seq<Span>)
    ensures |spans| == |Markers(labels)|
    ensures forall k :: 0 <= k < |spans| ==> spans[k].start <= spans[k].end < |labels|
  {
    var ms := Markers(labels);
    seq(|ms|, k requires 0 <= k < |ms| => Span(ms[k], SpanEnd(labels, ms, k), labels[ms[k]].value))
  }

  /** The inclusive page ranges of some spans. */
  function Ranges(spans: seq<Span>): (rs: seq<PageRange>)
  {
    seq(|spans|, k requires 0 <= k < |spans| => PageRange(spans[k].start, spans[k].end))
  }

  predicate InSpan(p: nat, s: Span) {
    s.start <= p <= s.end
  }

  /**
   * The spans are in page order and contiguous: each ends one page before the
   * next starts, and the last ends on the last page.
   */
  lemma SegmentContiguous(labels: seq<Option<string>>)
    ensures var spans := Segment(labels);
            && (forall k, l :: 0 <= k < l < |spans| && l == k + 1 ==> spans[k].end + 1 == spans[l].start)
            && (|spans| > 0 ==> spans[|spans| - 1].end == |labels| - 1)
  {
  }

  /**
   * A page starts a span exactly when it is a marker, and then the span's label
   * is the page's own extractor result: a repeated label still opens a new
   * span.
   */
  lemma OpensExactlyAtMarkers(labels: seq<Option<string>>, p: nat)
    requires p < |labels|
    ensures var spans := Segment(labels);
            && (IsMarker(labels[p]) <==> exists k :: 0 <= k < |spans| && spans[k].start == p)
            && (forall k :: 0 <= k < |spans| && spans[k].start == p ==> spans[k].party == labels[p].value)
  {
    var ms := Markers(labels);
    if IsMarker(labels[p]) {
      MarkersBelowComplete(labels, |labels|, p);
      var k :| 0 <= k < |ms| && ms[k] == p;
      assert Segment(labels)[k].start == p;
    }
  }

  /** No page after a span's first page and up to its last page is a marker. */
  lemma NoMarkerInsideSpan(labels: seq<Option<string>>, k: nat, p: nat)
    requires k < |Segment(labels)|
    requires Segment(labels)[k].start < p <= Segment(labels)[k].end
    ensures !IsMarker(labels[p])
  {
    if IsMarker(labels[p]) {
      var ms := Markers(labels);
      MarkersBelowComplete(labels, |labels|, p);
      var j :| 0 <= j < |ms| && ms[j] == p;
    }
  }

  /** The ranges of the spans are contiguous. */
  lemma SegmentRangesContiguous(labels: seq<Option<string>>)
    ensures Contiguous(Ranges(Segment(labels)))
  {
    var rs := Ranges(Segment(labels));
    forall k, l | 0 <= k < l < |rs| && l == k + 1
      ensures rs[k].end + 1 == rs[l].start
    {
    }
  }

  /** There is no span exactly when no page is a marker. */
  lemma NoSpanIffNoMarker(labels: seq<Option<string>>)
    ensures Segment(labels) == [] <==> forall p :: 0 <= p < |labels| ==> !IsMarker(labels[p])
  {
    var ms := Markers(labels);
    if ms != [] {
      assert IsMarker(labels[ms[0]]);
    } else {
      forall p | 0 <= p < |labels| && IsMarker(labels[p])
        ensures false
      {
        MarkersBelowComplete(labels, |labels|, p);
      }
    }
  }

  /** Together the spans hold every page from the first marker to the last page, each once and in order. */
  lemma SegmentPages(labels: seq<Option<string>>)
    ensures var ms := Markers(labels);
            Flatten(Ranges(Segment(labels))) == if ms == [] then [] else PyRange(ms[0], |labels|)
  {
    var rs := Ranges(Segment(labels));
    if Markers(labels) != [] {
      SegmentRangesContiguous(labels);
      SegmentRangesBounds(labels);
      FlattenContiguous(rs);
    } else {
      assert rs == [];
    }
  }

  /** The first range starts at the first marker page and the last one ends on the last page. */
  lemma SegmentRangesBounds(labels: seq<Option<string>>)
    requires Markers(labels) != []
    ensures var rs := Ranges(Segment(labels));
            && |rs| > 0
            && rs[0].start == Markers(labels)[0]
            && rs[|rs| - 1].end + 1 == |labels|
  {
    SegmentContiguous(labels);
  }

  /** A page belongs to some span exactly when some marker comes at or before it. */
  lemma Coverage(labels: seq<Option<string>>, p: nat)
    requires p < |labels|
    ensures (exists k :: 0 <= k < |Segment(labels)| && InSpan(p, Segment(labels)[k]))
        <==> (exists q :: 0 <= q <= p && IsMarker(labels[q]))
  {
    if exists q :: 0 <= q <= p && IsMarker(labels[q]) {
      var q :| 0 <= q <= p && IsMarker(labels[q]);
      CoveredAfterMarker(labels, q, p);
    }
    if exists k :: 0 <= k < |Segment(labels)| && InSpan(p, Segment(labels)[k]) {
      var k :| 0 <= k < |Segment(labels)| && InSpan(p, Segment(labels)[k]);
      assert IsMarker(labels[Markers(labels)[k]]);
    }
  }

  /** A page at or after a marker page lies in some span. */
  lemma CoveredAfterMarker(labels: seq<Option<string>>, q: nat, p: nat)
    requires q <= p < |labels| && IsMarker(labels[q])
    ensures exists k :: 0 <= k < |Segment(labels)| && InSpan(p, Segment(labels)[k])
  {
    var rs := Ranges(Segment(labels));
    FirstMarkerBound(labels, q);
    assert p in Flatten(rs) by {
      SegmentPages(labels);
      var first := Markers(labels)[0];
      assert PyRange(first, |labels|)[p - first] == p;
    }
    FlattenMember(rs, p);
    var k :| 0 <= k < |rs| && InRange(p, rs[k]);
    assert InSpan(p, Segment(labels)[k]);
  }

  /** A marker page means there is a first marker, at or before it. */
  lemma FirstMarkerBound(labels: seq<Option<string>>, q: nat)
    requires q < |labels| && IsMarker(labels[q])
    ensures Markers(labels) != [] && Markers(labels)[0] <= q
  {
    var ms := Markers(labels);
    MarkersBelowComplete(labels, |labels|, q);
    var i :| 0 <= i < |ms| && ms[i] == q;
  }

  /** No page belongs to two spans. */
  lemma Disjoint(labels: seq<Option<string>>, k: nat, l: nat, p: nat)
    requires k < l < |Segment(labels)|
    ensures !(InSpan(p, Segment(labels)[k]) && InSpan(p, Segment(labels)[l]))
  {
    var ms := Markers(labels);
    assert ms[k + 1] <= ms[l];
  }

  // ---------------------------------------------------------------------------
  // The state of the splitting loop after it has looked at pages 0 .. p-1.

  /** The spans between consecutive markers of `ms`: all but the one the last marker opens. */
  function Closed(labels: seq<Option<string>>, ms: seq<nat>): (spans: seq<Span>)
    requires ValidMarkers(labels, ms)
    ensures |spans| == if ms == [] then 0 else |ms| - 1
  {
    if |ms| <= 1 then []
    else
      var init := ms[..|ms| - 1];
      assert ValidMarkers(labels, init) by {
        forall k | 0 <= k < |init|
          ensures init[k] == ms[k]
        {
        }
      }
      assert ms[|ms| - 2] < ms[|ms| - 1];
      Closed(labels, init) + [Span(ms[|ms| - 2], ms[|ms| - 1] - 1, labels[ms[|ms| - 2]].value)]
  }

  /** The k-th closed span runs from the k-th marker to one page before the next. */
  lemma {:induction false} ClosedAt(labels: seq<Option<string>>, ms: seq<nat>, k: nat)
    requires ValidMarkers(labels, ms) && k + 1 < |ms|
    ensures ms[k] < ms[k + 1]
    ensures Closed(labels, ms)[k] == Span(ms[k], ms[k + 1] - 1, labels[ms[k]].value)
  {
    var init := ms[..|ms| - 1];
    assert forall j :: 0 <= j < |init| ==> init[j] == ms[j];
    if k + 2 < |ms| {
      ClosedAt(labels, init, k);
    } else if k > 0 {
      ClosedAt(labels, init, k - 1);
    }
  }

  /** The state after pages `0 .. p-1`: the last marker seen so far is the open span. */
  function StateAfter(labels: seq<Option<string>>, p: nat): (st: SplitState)
    requires p <= |labels|
    ensures st.SpanOpen? ==> st.start < p
  {
    var ms := MarkersBelow(labels, p);
    if ms == [] then NoOpenSpan
    else SpanOpen(ms[|ms| - 1], labels[ms[|ms| - 1]].value)
  }

  /** The spans closed after pages `0 .. p-1`. */
  function ClosedAfter(labels: seq<Option<string>>, p: nat): seq<Span>
    requires p <= |labels|
  {
    Closed(labels, MarkersBelow(labels, p))
  }

  /** Appending a marker closes the span of the previous last marker one page before it. */
  lemma ClosedSnoc(labels: seq<Option<string>>, ms: seq<nat>, p: nat)
    requires ValidMarkers(labels, ms + [p]) && ms != [] && ms[|ms| - 1] < p
    ensures ValidMarkers(labels, ms)
    ensures Closed(labels, ms + [p]) == Closed(labels, ms) + [Span(ms[|ms| - 1], p - 1, labels[ms[|ms| - 1]].value)]
  {
    var ms' := ms + [p];
    assert ms'[..|ms'| - 1] == ms;
  }

  /** A page that is not a marker leaves the state and the closed spans as they were. */
  lemma StepOther(labels: seq<Option<string>>, p: nat)
    requires p < |labels| && !IsMarker(labels[p])
    ensures StateAfter(labels, p + 1) == StateAfter(labels, p)
    ensures ClosedAfter(labels, p + 1) == ClosedAfter(labels, p)
  {
    var ms := MarkersBelow(labels, p);
    assert MarkersBelow(labels, p + 1) == ms + [];
    assert ms + [] == ms;
  }

  /** A marker page closes the open span, if any, at `p - 1` and opens a span at `p`. */
  lemma StepMarker(labels: seq<Option<string>>, p: nat)
    requires p < |labels| && IsMarker(labels[p])
    ensures StateAfter(labels, p + 1) == SpanOpen(p, labels[p].value)
    ensures StateAfter(labels, p).NoOpenSpan? ==> ClosedAfter(labels, p + 1) == ClosedAfter(labels, p)
    ensures StateAfter(labels, p).SpanOpen? ==>
              && StateAfter(labels, p).start < p
              && ClosedAfter(labels, p + 1) ==
                   ClosedAfter(labels, p) + [Span(StateAfter(labels, p).start, p - 1, StateAfter(labels, p).party)]
  {
    var ms := MarkersBelow(labels, p);
    assert MarkersBelow(labels, p + 1) == ms + [p];
    if ms != [] {
      ClosedSnoc(labels, ms, p);
    }
  }

  /** One iteration of the loop takes the reference state after `p` pages to the one after `p + 1`. */
  lemma StepReference(labels: seq<Option<string>>, p: nat)
    requires p < |labels|
    ensures Machine(StateAfter(labels, p + 1), ClosedAfter(labels, p + 1)) ==
              Step(Machine(StateAfter(labels, p), ClosedAfter(labels, p)), p, labels[p])
  {
    if IsMarker(labels[p]) {
      StepMarker(labels, p);
    } else {
      StepOther(labels, p);
    }
  }

  /** After the last page, closing the open span at the last page gives all the spans. */
  lemma Finish(labels: seq<Option<string>>)
    ensures Segment(labels) ==
              match StateAfter(labels, |labels|)
              case NoOpenSpan => ClosedAfter(labels, |labels|)
              case SpanOpen(start, party) => ClosedAfter(labels, |labels|) + [Span(start, |labels| - 1, party)]
  {
    var ms := Markers(labels);
    if ms != [] {
      var c := Segment(labels);
      var d := ClosedAfter(labels, |labels|) + [Span(ms[|ms| - 1], |labels| - 1, labels[ms[|ms| - 1]].value)];
      assert |c| == |d|;
      forall k | 0 <= k < |c|
        ensures c[k] == d[k]
      {
        if k < |ms| - 1 {
          ClosedAt(labels, ms, k);
          assert d[k] == Closed(labels, ms)[k];
        }
      }
    }
  }

  /** Each span is named by the (non-empty) label of its first page. */
  lemma SpanLabel(labels: seq<Option<string>>, k: nat)
    requires k < |Segment(labels)|
    ensures labels[Segment(labels)[k].start] == Some(Segment(labels)[k].party)
    ensures Segment(labels)[k].party != ""
  {
    assert IsMarker(labels[Markers(labels)[k]]);
  }

  // ---------------------------------------------------------------------------
  // The splitting loop as a fold over the pages

  /** The loop's variables: the open span, if any, and the spans closed so far. */
  datatype Machine = Machine(state: SplitState, closed: seq<Span>)

  /**
   * One iteration on page `p`: a truthy extractor result closes the open
   * span, if any, at `p - 1` and opens a span at `p`; anything else changes
   * nothing.
   */
  function Step(m: Machine, p: nat, result: Option<string>): Machine
    requires m.state.SpanOpen? ==> m.state.start < p
  {
    if !IsMarker(result) then m
    else
      var closed := if m.state.SpanOpen? then m.closed + [Span(m.state.start, p - 1, m.state.party)] else m.closed;
      Machine(SpanOpen(p, result.value), closed)
  }

  /** The loop's variables after it has looked at pages `0 .. p-1`. */
  function Run(labels: seq<Option<string>>, p: nat): (m: Machine)
    requires p <= |labels|
    ensures m.state.SpanOpen? ==> m.state.start < p
  {
    if p == 0 then Machine(NoOpenSpan, [])
    else Step(Run(labels, p - 1), p - 1, labels[p - 1])
  }

  /** After the loop: the open span, if any, closes on page `n - 1`. */
  function Close(m: Machine, n: nat): seq<Span>
    requires m.state.SpanOpen? ==> m.state.start < n
  {
    if m.state.SpanOpen? then m.closed + [Span(m.state.start, n - 1, m.state.party)] else m.closed
  }

  /** The loop's variables after `p` pages are the last marker so far and the spans it has closed. */
  lemma {:induction false} RunMatchesReference(labels: seq<Option<string>>, p: nat)
    requires p <= |labels|
    ensures Run(labels, p) == Machine(StateAfter(labels, p), ClosedAfter(labels, p))
  {
    if p != 0 {
      RunMatchesReference(labels, p - 1);
      RunStep(labels, p - 1);
    } else {
      RunStart(labels);
    }
  }

  /** Before the first page the loop agrees with the reference: nothing open, nothing closed. */
  lemma RunStart(labels: seq<Option<string>>)
    ensures Run(labels, 0) == Machine(StateAfter(labels, 0), ClosedAfter(labels, 0))
  {
    assert MarkersBelow(labels, 0) == [];
  }

  /** If the loop agrees with the reference after `p` pages, it agrees after `p + 1`. */
  lemma RunStep(labels: seq<Option<string>>, p: nat)
    requires p < |labels|
    requires Run(labels, p) == Machine(StateAfter(labels, p), ClosedAfter(labels, p))
    ensures Run(labels, p + 1) == Machine(StateAfter(labels, p + 1), ClosedAfter(labels, p + 1))
  {
    StepReference(labels, p);
  }

  /** Running the loop over every page and closing the last span gives exactly the reference spans. */
  lemma RunSegments(labels: seq<Option<string>>)
    ensures Close(Run(labels, |labels|), |labels|) == Segment(labels)
  {
    RunMatchesReference(labels, |labels|);
    Finish(labels);
  }
}
