/**
 * `Utility/PDF_textExtraction_Renaming.py`: read the whole text of each PDF
 * (falling back to OCR when the text layer is blank), record it, and rename
 * the file after the party and order id found in it.
 */
module Renaming {
  import opened Wrappers
  import opened PyStr
  import opened Sanitize
  import opened Fields
  import opened Pdf

  /**
   * A directory entry as the script sees it. `direct` and `ocr` are the
   * per-page texts that `get_text` and OCR produce, or `None` when opening or
   * reading the file raises.
   */
  datatype ScannedFile = ScannedFile(name: string, direct: Option<seq<string>>, ocr: Option<seq<string>>)

  /** A completed `os.rename`: the entry's name and its new name. */
  datatype Rename = Rename(oldName: string, newName: string)

  /** The page texts joined in page order. */
  function Concat(texts: seq<string>): string {
    if texts == [] then "" else Concat(texts[..|texts| - 1]) + texts[|texts| - 1]
  }

  lemma {:induction false} ConcatAppend(a: seq<string>, b: seq<string>)
    ensures Concat(a + b) == Concat(a) + Concat(b)
  {
    if b != [] {
      var ab := a + b;
      assert ab[..|ab| - 1] == a + b[..|b| - 1];
      ConcatAppend(a, b[..|b| - 1]);
    } else {
      assert a + b == a;
    }
  }

  /** The text of page `i` sits in the joined text right after the text of the pages before it. */
  lemma PageTextOccurs(texts: seq<string>, i: nat)
    requires i < |texts|
    ensures OccursAt(Concat(texts), texts[i], |Concat(texts[..i])|)
  {
    assert texts == texts[..i] + [texts[i]] + texts[i + 1..];
    ConcatAppend(texts[..i] + [texts[i]], texts[i + 1..]);
    ConcatAppend(texts[..i], [texts[i]]);
    assert Concat([texts[i]]) == Concat([]) + texts[i];
  }

  /** What `extract_text_from_pdf` (or its OCR twin) returns: the joined text, or `""` on an error. */
  function AllText(pages: Option<seq<string>>): string {
    match pages
    case None => ""
    case Some(texts) => Concat(texts)
  }

  /** `extract_text_from_pdf` and `extract_text_from_image_pdf`: accumulate the page texts with `+=`. */
  method ExtractAllText(pages: Option<seq<string>>) returns (text: string)
    ensures text == AllText(pages)
  {
    if pages.None? {
      return "";
    }
    var texts := pages.value;
    text := "";
    for pageNum := 0 to |texts|
      invariant text == Concat(texts[..pageNum])
    {
      assert texts[..pageNum + 1][..pageNum] == texts[..pageNum];
      text := text + texts[pageNum];
    }
    assert texts[..|texts|] == texts;
  }

  /** The text kept for an entry: the direct text, unless it is blank (`not text.strip()`), then the OCR text. */
  function ChosenText(f: ScannedFile): string {
    var text := AllText(f.direct);
    if Strip(text) == "" then AllText(f.ocr) else text
  }

  /** OCR is used exactly when the direct text has no non-whitespace character (an error counts as blank). */
  lemma ChosenTextCases(f: ScannedFile)
    ensures (exists i :: 0 <= i < |AllText(f.direct)| && !IsSpace(AllText(f.direct)[i])) ==> ChosenText(f) == AllText(f.direct)
    ensures (forall i :: 0 <= i < |AllText(f.direct)| ==> IsSpace(AllText(f.direct)[i])) ==> ChosenText(f) == AllText(f.ocr)
    ensures f.direct.None? ==> ChosenText(f) == AllText(f.ocr)
  {
    StripSpec(AllText(f.direct));
  }

  /** The name `rename_pdf_file` gives an entry, if `extract_party_name_and_order_id` finds one in its text. */
  function NewName(f: ScannedFile): Option<string> {
    match PartyAndOrder(DeleteIllegal, ChosenText(f))
    case Some(id) => if id != "" then Some(id + ".pdf") else None
    case None => None
  }

  /**
   * An entry is renamed exactly when its text yields a party and an order id,
   * and the new name is the cleaned, stripped party, `_`, the digits of the
   * order id and `.pdf`.
   */
  lemma NewNameShape(f: ScannedFile)
    ensures var lines := SplitLines(ChosenText(f));
            var party := LastParty(lines, |lines|);
            var order := LastOrderId(lines, |lines|);
            && (NewName(f).Some? <==> party.Some? && party.value != "" && order.Some?)
            && (NewName(f).Some? ==>
                  && order.value != []
                  && (forall i :: 0 <= i < |order.value| ==> IsDigit(order.value[i]))
                  && NewName(f).value == Strip(SanitizeDelete(party.value)) + "_" + order.value + ".pdf"
                  && Clean(Strip(SanitizeDelete(party.value)) + "_" + order.value))
  {
    var text := ChosenText(f);
    PartyAndOrderShape(DeleteIllegal, text);
    var r := PartyAndOrder(DeleteIllegal, text);
    if r.Some? {
      assert r.value != "" by {
        var lines := SplitLines(text);
        var party := LastParty(lines, |lines|);
        var order := LastOrderId(lines, |lines|);
        assert |r.value| == |Strip(SanitizeDelete(party.value))| + 1 + |order.value|;
      }
    }
  }

  /** What the loop body finds out about one `.pdf` entry: its name, the text kept and the new name, if any. */
  datatype Outcome = Outcome(name: string, text: string, newName: Option<string>)

  function Scan(f: ScannedFile): Outcome {
    Outcome(f.name, ChosenText(f), NewName(f))
  }

  /** The outcomes `scan` gives the `.pdf` entries of the listing, in listing order. */
  function ScannedBy(listing: seq<ScannedFile>, scan: ScannedFile -> Outcome): seq<Outcome> {
    if listing == [] then []
    else
      var last := listing[|listing| - 1];
      ScannedBy(listing[..|listing| - 1], scan) + if IsPdfName(last.name) then [scan(last)] else []
  }

  /** The outcomes of the `.pdf` entries of the listing, in listing order. */
  function Scanned(listing: seq<ScannedFile>): seq<Outcome> {
    ScannedBy(listing, Scan)
  }

  /** `text_data` after the loop: the text of every outcome, keyed by its name. */
  function TextData(outcomes: seq<Outcome>): map<string, string> {
    if outcomes == [] then map[]
    else
      var last := outcomes[|outcomes| - 1];
      TextData(outcomes[..|outcomes| - 1])[last.name := last.text]
  }

  /** The renames the loop performs, in listing order. */
  function Renames(outcomes: seq<Outcome>): seq<Rename> {
    if outcomes == [] then []
    else
      var last := outcomes[|outcomes| - 1];
      Renames(outcomes[..|outcomes| - 1]) + if last.newName.Some? then [Rename(last.name, last.newName.value)] else []
  }

  /** The loop body for one `.pdf` entry: extract, fall back to OCR, and look for the new name. */
  method ScanFile(f: ScannedFile) returns (text: string, newName: Option<string>)
    ensures Outcome(f.name, text, newName) == Scan(f)
  {
    text := ExtractAllText(f.direct);
    if Strip(text) == "" {
      text := ExtractAllText(f.ocr);
    }
    var partyNameAndOrderId := ExtractPartyAndOrder(DeleteIllegal, text);
    if partyNameAndOrderId.Some? && partyNameAndOrderId.value != "" {
      newName := Some(partyNameAndOrderId.value + ".pdf");
    } else {
      newName := None;
    }
  }

  /**
   * The loop body of `extract_text_from_directory` for one entry: a `.pdf`
   * entry is scanned, its text recorded under its name and, when it yields a
   * new name, renamed; any other entry changes nothing.
   */
  method RecordEntry(f: ScannedFile, textData: map<string, string>, renames: seq<Rename>, ghost outcomes: seq<Outcome>)
      returns (textData': map<string, string>, renames': seq<Rename>, ghost outcomes': seq<Outcome>)
    requires textData == TextData(outcomes) && renames == Renames(outcomes)
    ensures outcomes' == outcomes + if IsPdfName(f.name) then [Scan(f)] else []
    ensures textData' == TextData(outcomes') && renames' == Renames(outcomes')
  {
    textData', renames', outcomes' := textData, renames, outcomes;
    if IsPdfName(f.name) {
      var text, newName := ScanFile(f);
      textData' := textData[f.name := text];
      if newName.Some? {
        renames' := renames + [Rename(f.name, newName.value)];
      }
      outcomes' := outcomes + [Outcome(f.name, text, newName)];
      assert outcomes'[..|outcomes'| - 1] == outcomes;
    } else {
      assert outcomes + [] == outcomes;
    }
  }

  /** `extract_text_from_directory`: record the text of every `.pdf` entry and rename those that yield a name. */
  method ExtractTextFromDirectory(listing: seq<ScannedFile>) returns (textData: map<string, string>, renames: seq<Rename>)
    ensures textData == TextData(Scanned(listing))
    ensures renames == Renames(Scanned(listing))
  {
    textData := map[];
    renames := [];
    ghost var outcomes: seq<Outcome> := [];
    for i := 0 to |listing|
      invariant outcomes == Scanned(listing[..i])
      invariant textData == TextData(outcomes) && renames == Renames(outcomes)
    {
      var f := listing[i];
      assert listing[..i + 1][..i] == listing[..i];
      textData, renames, outcomes := RecordEntry(f, textData, renames, outcomes);
    }
    assert listing[..|listing|] == listing;
  }

  /** `scan` gives an outcome for exactly the `.pdf` entries, each on its own. */
  lemma {:induction false} ScannedByMember(listing: seq<ScannedFile>, scan: ScannedFile -> Outcome, o: Outcome)
    ensures o in ScannedBy(listing, scan) <==>
              exists i :: 0 <= i < |listing| && IsPdfName(listing[i].name) && o == scan(listing[i])
  {
    if listing != [] {
      var init := listing[..|listing| - 1];
      ScannedByMember(init, scan, o);
      if exists i :: 0 <= i < |init| && IsPdfName(init[i].name) && o == scan(init[i]) {
        var i :| 0 <= i < |init| && IsPdfName(init[i].name) && o == scan(init[i]);
        assert listing[i] == init[i];
      }
      if exists i :: 0 <= i < |listing| && IsPdfName(listing[i].name) && o == scan(listing[i]) {
        var i :| 0 <= i < |listing| && IsPdfName(listing[i].name) && o == scan(listing[i]);
        if i < |init| {
          assert init[i] == listing[i];
        }
      }
    }
  }

  /** An outcome is recorded for exactly the `.pdf` entries, each scanned on its own. */
  lemma ScannedMember(listing: seq<ScannedFile>, o: Outcome)
    ensures o in Scanned(listing) <==> exists i :: 0 <= i < |listing| && IsPdfName(listing[i].name) && o == Scan(listing[i])
  {
    ScannedByMember(listing, Scan, o);
  }

  /** The keys of `text_data` are exactly the names of the outcomes. */
  lemma {:induction false} TextDataKeys(outcomes: seq<Outcome>, name: string)
    ensures name in TextData(outcomes) <==> exists i :: 0 <= i < |outcomes| && outcomes[i].name == name
  {
    if outcomes != [] {
      var init := outcomes[..|outcomes| - 1];
      TextDataKeys(init, name);
      if exists i :: 0 <= i < |init| && init[i].name == name {
        var i :| 0 <= i < |init| && init[i].name == name;
        assert outcomes[i].name == name;
      }
      if exists i :: 0 <= i < |outcomes| && outcomes[i].name == name {
        var i :| 0 <= i < |outcomes| && outcomes[i].name == name;
        if i < |init| {
          assert init[i].name == name;
        }
      }
    }
  }

  /** The text recorded under a name is the text of the last outcome with that name. */
  lemma {:induction false} TextDataValue(outcomes: seq<Outcome>, i: nat)
    requires i < |outcomes|
    requires forall j :: i < j < |outcomes| ==> outcomes[j].name != outcomes[i].name
    ensures outcomes[i].name in TextData(outcomes)
    ensures TextData(outcomes)[outcomes[i].name] == outcomes[i].text
  {
    if i < |outcomes| - 1 {
      var init := outcomes[..|outcomes| - 1];
      TextDataValue(init, i);
    }
  }

  /** Each rename comes from an outcome with a new name, and each such outcome is renamed. */
  lemma {:induction false} RenamesMember(outcomes: seq<Outcome>, r: Rename)
    ensures r in Renames(outcomes) <==> exists i :: 0 <= i < |outcomes| && r.oldName == outcomes[i].name && outcomes[i].newName == Some(r.newName)
  {
    if outcomes != [] {
      var init := outcomes[..|outcomes| - 1];
      RenamesMember(init, r);
      if exists i :: 0 <= i < |init| && r.oldName == init[i].name && init[i].newName == Some(r.newName) {
        var i :| 0 <= i < |init| && r.oldName == init[i].name && init[i].newName == Some(r.newName);
        assert outcomes[i] == init[i];
      }
      if exists i :: 0 <= i < |outcomes| && r.oldName == outcomes[i].name && outcomes[i].newName == Some(r.newName) {
        var i :| 0 <= i < |outcomes| && r.oldName == outcomes[i].name && outcomes[i].newName == Some(r.newName);
        if i < |init| {
          assert init[i] == outcomes[i];
        }
      }
    }
  }
}
