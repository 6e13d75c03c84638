/**
 * Documents and output files, abstracted: a source PDF is its name and the
 * text of each page; an output PDF is a file name, the source it was cut from
 * and the indices of the source pages it holds, in order. Also the `.pdf`
 * filter of the directory loops and the effect of successive saves on the
 * output directory.
 */
module Pdf {
  import opened PyStr

  /** A source PDF: its file name in the listing and the text of each page. */
  datatype Document = Document(name: string, pageTexts: seq<string>)

  /** An inclusive page range `(start_page, end_page)` as the splitters record it. */
  datatype PageRange = PageRange(start: nat, end: nat)

  /** One `new_pdf.save(output_path)`: the file name and the source pages copied into it. */
  datatype OutputPdf = OutputPdf(name: string, source: string, pages: seq<nat>)

  /** `list(range(first, stop))`. */
  function PyRange(first: nat, stop: nat): (r: seq<nat>)
    decreases stop - first
    ensures |r| == if first <= stop then stop - first else 0
    ensures forall i :: 0 <= i < |r| ==> r[i] == first + i
  {
    if first >= stop then [] else [first] + PyRange(first + 1, stop)
  }

  /** The pages of one inclusive range: `range(start_page, end_page + 1)`. */
  function RangePages(r: PageRange): seq<nat> {
    PyRange(r.start, r.end + 1)
  }

  /** Consecutive runs join into one run. */
  lemma PyRangeJoin(a: nat, b: nat, c: nat)
    requires a <= b <= c
    ensures PyRange(a, b) + PyRange(b, c) == PyRange(a, c)
  {
    var lhs := PyRange(a, b) + PyRange(b, c);
    assert |lhs| == |PyRange(a, c)|;
    forall i | 0 <= i < |lhs|
      ensures lhs[i] == PyRange(a, c)[i]
    {
      if i < b - a {
        assert lhs[i] == PyRange(a, b)[i];
      } else {
        assert lhs[i] == PyRange(b, c)[i - (b - a)];
      }
    }
  }

  /** The pages of several ranges, range after range: the nested copy loops. */
  function Flatten(ranges: seq<PageRange>): seq<nat> {
    if ranges == [] then [] else RangePages(ranges[0]) + Flatten(ranges[1..])
  }

  lemma {:induction false} FlattenAppend(a: seq<PageRange>, b: seq<PageRange>)
    ensures Flatten(a + b) == Flatten(a) + Flatten(b)
  {
    if a == [] {
      assert a + b == b;
    } else {
      assert (a + b)[1..] == a[1..] + b;
      FlattenAppend(a[1..], b);
    }
  }

  predicate InRange(p: nat, r: PageRange) {
    r.start <= p <= r.end
  }

  /** A page is among the flattened pages exactly when one of the ranges holds it. */
  lemma {:induction false} FlattenMember(ranges: seq<PageRange>, p: nat)
    ensures p in Flatten(ranges) <==> exists k :: 0 <= k < |ranges| && InRange(p, ranges[k])
  {
    if ranges != [] {
      FlattenMember(ranges[1..], p);
      if InRange(p, ranges[0]) {
        assert RangePages(ranges[0])[p - ranges[0].start] == p;
      }
      if exists k :: 0 <= k < |ranges| && InRange(p, ranges[k]) {
        var k :| 0 <= k < |ranges| && InRange(p, ranges[k]);
        if k > 0 {
          assert InRange(p, ranges[1..][k - 1]);
        }
      }
      if exists k :: 0 <= k < |ranges| - 1 && InRange(p, ranges[1..][k]) {
        var k :| 0 <= k < |ranges| - 1 && InRange(p, ranges[1..][k]);
        assert InRange(p, ranges[k + 1]);
      }
    }
  }

  /** Every range is non-empty and lies wholly before the next one. */
  predicate Ascending(ranges: seq<PageRange>) {
    && (forall k :: 0 <= k < |ranges| ==> ranges[k].start <= ranges[k].end)
    && (forall k, l :: 0 <= k < l < |ranges| ==> ranges[k].end < ranges[l].start)
  }

  predicate StrictlyIncreasing(s: seq<nat>) {
    forall i, j :: 0 <= i < j < |s| ==> s[i] < s[j]
  }

  /** Ascending ranges flatten to a strictly increasing page list: no page twice, original order. */
  lemma {:induction false} FlattenIncreasing(ranges: seq<PageRange>)
    requires Ascending(ranges)
    ensures StrictlyIncreasing(Flatten(ranges))
  {
    if ranges != [] {
      var head := RangePages(ranges[0]);
      var tail := Flatten(ranges[1..]);
      FlattenIncreasing(ranges[1..]);
      forall j | 0 <= j < |tail|
        ensures ranges[0].end < tail[j]
      {
        FlattenMember(ranges[1..], tail[j]);
        var k :| 0 <= k < |ranges| - 1 && InRange(tail[j], ranges[1..][k]);
        assert ranges[0].end < ranges[k + 1].start;
      }
      var all := head + tail;
      forall i, j | 0 <= i < j < |all|
        ensures all[i] < all[j]
      {
        if j >= |head| && i < |head| {
          assert all[j] == tail[j - |head|];
        } else if i >= |head| {
          assert all[i] == tail[i - |head|] && all[j] == tail[j - |head|];
        }
      }
    }
  }

  /** Every range is non-empty and the next one starts right after it. */
  ghost predicate Contiguous(ranges: seq<PageRange>) {
    && (forall k :: 0 <= k < |ranges| ==> ranges[k].start <= ranges[k].end)
    && (forall k, l :: 0 <= k < l < |ranges| && l == k + 1 ==> ranges[k].end + 1 == ranges[l].start)
  }

  /** Contiguous ranges flatten to the single run from the first start to the last end. */
  lemma {:induction false} FlattenContiguous(ranges: seq<PageRange>)
    requires |ranges| > 0 && Contiguous(ranges)
    ensures Flatten(ranges) == PyRange(ranges[0].start, ranges[|ranges| - 1].end + 1)
  {
    if |ranges| == 1 {
      assert Flatten(ranges[1..]) == [];
    } else {
      var rest := ranges[1..];
      assert Contiguous(rest) by {
        forall k, l | 0 <= k < l < |rest| && l == k + 1
          ensures rest[k].end + 1 == rest[l].start
        {
          assert rest[k] == ranges[k + 1] && rest[l] == ranges[l + 1];
        }
      }
      FlattenContiguous(rest);
      var first, mid, last := ranges[0].start, ranges[0].end + 1, ranges[|ranges| - 1].end + 1;
      assert rest[0].start == mid;
      assert rest[|rest| - 1].end + 1 == last;
      assert Flatten(rest) == PyRange(mid, last);
      assert mid <= last by {
        ContiguousEndsGrow(ranges, |ranges| - 1);
      }
      PyRangeJoin(first, mid, last);
      assert Flatten(ranges) == PyRange(first, mid) + Flatten(rest);
    }
  }

  lemma {:induction false} ContiguousEndsGrow(ranges: seq<PageRange>, k: nat)
    requires Contiguous(ranges) && k < |ranges|
    ensures ranges[0].end <= ranges[k].end
  {
    if k > 0 {
      ContiguousEndsGrow(ranges, k - 1);
    }
  }

  /** `filename.lower().endswith(".pdf")`. */
  predicate IsPdfName(name: string) {
    EndsWith(Lower(name), ".pdf")
  }

  /** The filter accepts exactly the names whose last four characters are `.pdf` in any letter case. */
  lemma PdfNameCases(name: string)
    ensures IsPdfName(name) <==>
      && |name| >= 4
      && name[|name| - 4] == '.'
      && (name[|name| - 3] == 'p' || name[|name| - 3] == 'P')
      && (name[|name| - 2] == 'd' || name[|name| - 2] == 'D')
      && (name[|name| - 1] == 'f' || name[|name| - 1] == 'F')
  {
    var low := Lower(name);
    if |name| >= 4 {
      var suffix := low[|low| - 4..];
      assert suffix == [low[|low| - 4], low[|low| - 3], low[|low| - 2], low[|low| - 1]];
    }
  }

  /** The output directory after the saves, a later save to a name replacing an earlier one. */
  function DirectoryAfter(writes: seq<OutputPdf>): map<string, OutputPdf> {
    if writes == [] then map[]
    else DirectoryAfter(writes[..|writes| - 1])[writes[|writes| - 1].name := writes[|writes| - 1]]
  }

  /** A file holds what the last save to its name wrote. */
  lemma {:induction false} LastWriteWins(writes: seq<OutputPdf>, k: nat)
    requires k < |writes|
    requires forall j :: k < j < |writes| ==> writes[j].name != writes[k].name
    ensures writes[k].name in DirectoryAfter(writes)
    ensures DirectoryAfter(writes)[writes[k].name] == writes[k]
  {
    if k < |writes| - 1 {
      LastWriteWins(writes[..|writes| - 1], k);
    }
  }

  /** The directory holds exactly the names that were saved. */
  lemma {:induction false} DirectoryNames(writes: seq<OutputPdf>, name: string)
    ensures name in DirectoryAfter(writes) <==> exists k :: 0 <= k < |writes| && writes[k].name == name
  {
    if writes != [] {
      var init := writes[..|writes| - 1];
      DirectoryNames(init, name);
      if exists k :: 0 <= k < |init| && init[k].name == name {
        var k :| 0 <= k < |init| && init[k].name == name;
        assert writes[k].name == name;
      }
    }
  }

  /** The names the directory loop processes: those passing the `.pdf` filter, in listing order. */
  function PdfNames(listing: seq<Document>): seq<string> {
    if listing == [] then []
    else
      var last := listing[|listing| - 1];
      PdfNames(listing[..|listing| - 1]) + if IsPdfName(last.name) then [last.name] else []
  }

  /** A name is processed exactly when it is in the listing and passes the filter. */
  lemma {:induction false} PdfNamesMember(listing: seq<Document>, name: string)
    ensures name in PdfNames(listing) <==>
              IsPdfName(name) && exists i :: 0 <= i < |listing| && listing[i].name == name
  {
    if listing != [] {
      var init := listing[..|listing| - 1];
      PdfNamesMember(init, name);
      if exists i :: 0 <= i < |init| && init[i].name == name {
        var i :| 0 <= i < |init| && init[i].name == name;
        assert listing[i].name == name;
      }
      if exists i :: 0 <= i < |listing| && listing[i].name == name {
        var i :| 0 <= i < |listing| && listing[i].name == name;
        if i < |init| {
          assert init[i].name == name;
        }
      }
    }
  }

  /** The page-copy loop of both splitters: the pages `start .. end` of one range, one at a time. */
  method CopyRange(r: PageRange) returns (pages: seq<nat>)
    ensures pages == RangePages(r)
  {
    pages := [];
    var i := r.start;
    while i < r.end + 1
      invariant r.start <= i
      invariant i <= r.end + 1 || i == r.start
      invariant pages == PyRange(r.start, i)
    {
      PyRangeJoin(r.start, i, i + 1);
      pages := pages + [i];
      i := i + 1;
    }
  }

  /** Output names `x + ".pdf"` name different files for different `x`. */
  lemma PdfSuffixInjective(a: string, b: string)
    requires a + ".pdf" == b + ".pdf"
    ensures a == b
  {
    assert |a| == |b|;
    assert a == (a + ".pdf")[..|a|];
    assert b == (b + ".pdf")[..|b|];
  }
}
