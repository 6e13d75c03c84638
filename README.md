# Page segmentation of business PDFs

Two scripts of this repository split merged PDF print-outs (invoices,
orders) into page spans. The party-only splitter writes one file per party,
holding every span of that party. The party+order splitter writes one file
per span, named after the party and order id on the span's first page. A
third script does not split: it reads the whole text of each PDF, with an OCR
fallback, and renames the whole file after the last party and order id found
in that text. The splitters split each page's text into lines; the renaming
script splits the document's whole text, so a page's last line can run into
the next page's first line. The lines are searched for a keyword line:

- the party name is the stripped line just above a line containing `M/s.`
  (or `M/s`);
- the order id is the digit group of the pattern `ID : (\d+)`.

A page on which a name is found opens a new span of pages. The previous span
closes one page earlier. File names are cleaned of the characters Windows
forbids, `< > : " / \ | ? *`, by deleting them or by replacing them with `_`.

The model reads a PDF as the sequence of its page texts. An output file is a
name plus the page indices copied into it, and a directory listing is a
sequence of entries in listing order. The Dafny modules follow the scripts:

- `Wrappers` holds `Option`.
- `PyStr` models the Python string operations used: `str.strip` over the
  whitespace set of `str.isspace`, `split('\n')`, `in`, `endswith`, `lower`
  and `\d`.
- `Sanitize` holds the two sanitisers.
- `Fields` holds the two field extractors: `extract_party_name` and
  `extract_party_name_and_order_id` with its hand-written `re.search`.
- `Pdf` holds page ranges, the page-copy loop, the `.pdf` filter and the
  output directory, where a later save to a name replaces an earlier one.
- `Segmentation` holds the span state machine shared by both splitters:
  - a closed-form reference (`Segment`: the k-th span runs from the k-th
    marker page to the page before the next marker, or to the last page);
  - the lemmas that tie one loop step to it.
- `PartySplit` models `singlePDF_MultiExtraction_PartyName.py`: spans are
  grouped by party in a `defaultdict`, one file per party.
- `OrderSplit` models `PDFsIndividualFileExtraction_PartyName_OrderID.py`:
  a list of spans, one file per span.
- `Renaming` models `Utility/PDF_textExtraction_Renaming.py`: it reads the
  whole text, falls back to OCR when that text is blank, records the text
  and renames the file.

Each loop of the scripts is a Dafny method whose `ensures` ties its result
to a reference function. The properties are lemmas about those functions.
`singlePDF_MultiExtraction_PartyName.py` and
`PDFsIndividualFileExtraction_PartyName_OrderID.py` are identical to their
copies under `Utility/`, so one model covers both copies and the table below
cites either copy by line.

Behaviour of the scripts that the model keeps:

- The order id is read only from a line containing `ID :` itself.
- The party+order extractor keeps the last matching line for each field.
- A repeated output name overwrites the earlier file
  (`OrderSplit.LastSpanWins`).
- Pages before the first marker page are dropped.
- The renaming script chooses between the direct and the OCR text once per
  document, on the whole text.
- The party-only splitter merges spans with the same party into one file.

## Model

| member | source | states |
|---|---|---|
| PyStr.StripSpec | singlePDF_MultiExtraction_PartyName.py:21 | the result is the input with its leading and trailing `isspace` characters removed; it is empty exactly when every character is whitespace, and otherwise starts and ends with a non-space |
| PyStr.StripIdempotent | singlePDF_MultiExtraction_PartyName.py:24 | stripping a stripped string changes nothing |
| PyStr.SplitLines | singlePDF_MultiExtraction_PartyName.py:14 | `split('\n')` gives at least one piece, no piece holds a newline, and joining the pieces with newlines gives back the text |
| PyStr.SplitSingle | Utility/singlePDF_MultiExtraction_PartyName.py:14 | a text without a newline splits into itself alone |
| PyStr.SplitAtNewline | PDFsIndividualFileExtraction_PartyName_OrderID.py:14 | a first line followed by a newline splits off as the first piece |
| PyStr.SplitJoin | Utility/PDFsIndividualFileExtraction_PartyName_OrderID.py:14 | splitting the newline-join of newline-free lines gives those lines back |
| Sanitize.SanitizeDelete | singlePDF_MultiExtraction_PartyName.py:6-10 | the deleting sanitiser never lengthens its input |
| Sanitize.DeleteClean | singlePDF_MultiExtraction_PartyName.py:8-9 | the deleting sanitiser leaves no illegal character and leaves a clean name untouched |
| Sanitize.StripClean | singlePDF_MultiExtraction_PartyName.py:24 | stripping a sanitised name keeps it clean |
| Sanitize.DeleteAppend | singlePDF_MultiExtraction_PartyName.py:9 | deleting distributes over concatenation, so the kept characters stay in their order |
| Sanitize.DeleteCounts | Utility/singlePDF_MultiExtraction_PartyName.py:9 | every illegal character occurs zero times in the result, and every other character as often as in the input |
| Sanitize.DeleteIdempotent | Utility/singlePDF_MultiExtraction_PartyName.py:6-10 | sanitising twice equals sanitising once |
| Sanitize.SanitizeReplace | PDFsIndividualFileExtraction_PartyName_OrderID.py:6-10 | the replacing sanitiser keeps the length |
| Sanitize.ReplacePointwise | PDFsIndividualFileExtraction_PartyName_OrderID.py:8-9 | each character position of the result holds `_` where the input holds an illegal character, and the input's character otherwise |
| Sanitize.ReplaceClean | Utility/PDFsIndividualFileExtraction_PartyName_OrderID.py:6-10 | the replaced name is clean, and a clean name is left untouched |
| Sanitize.ReplaceIdempotent | PDFsIndividualFileExtraction_PartyName_OrderID.py:9 | replacing twice equals replacing once |
| Sanitize.SanitizedSpec | Utility/PDF_textExtraction_Renaming.py:34-38 | either sanitiser yields a clean name no longer than its input, and is the identity on clean names |
| Fields.FirstLineWhere | singlePDF_MultiExtraction_PartyName.py:19-22 | the search returns the smallest index from its start whose line satisfies the test, or none when no line does |
| Fields.LastLineWhere | PDFsIndividualFileExtraction_PartyName_OrderID.py:20-26 | the overwriting loop keeps the largest index at 1 or later whose line satisfies the test, or none |
| Fields.PartyName | singlePDF_MultiExtraction_PartyName.py:12-24 | the party name, when there is one, is clean and already stripped |
| Fields.ExtractPartyName | Utility/singlePDF_MultiExtraction_PartyName.py:12-24 | the early-exit loop returns exactly the party name of the text |
| Fields.PartyNameFromFirstMarker | singlePDF_MultiExtraction_PartyName.py:19-24 | with line `i` the first `M/s.` line at index 1 or later, the result is none when line `i-1` strips to empty, else the stripped, sanitised, stripped line `i-1` |
| Fields.PartyNameAbsent | singlePDF_MultiExtraction_PartyName.py:16-24 | without an `M/s.` line at index 1 or later the result is none; line 0 is never tested |
| Fields.SingleLineHasNoParty | Utility/singlePDF_MultiExtraction_PartyName.py:19 | a one-line text never yields a party name |
| Fields.FirstIdMatch | PDFsIndividualFileExtraction_PartyName_OrderID.py:24 | the search finds the leftmost index where `ID : ` is followed by a digit, or reports that there is none |
| Fields.DigitsAt | PDFsIndividualFileExtraction_PartyName_OrderID.py:24-26 | the group is the maximal run of digits at the given index |
| Fields.SearchOrderId | Utility/PDFsIndividualFileExtraction_PartyName_OrderID.py:23-26 | a match is a non-empty digit run on a line containing `ID :`, and there is no match exactly when `ID : \d` occurs nowhere |
| Fields.SearchOrderIdAt | Utility/PDF_textExtraction_Renaming.py:52-54 | the group is the digit run after the leftmost occurrence of the pattern |
| Fields.PartyAndOrder | PDFsIndividualFileExtraction_PartyName_OrderID.py:12-35 | a composite name, when there is one, is clean |
| Fields.VisitLine | PDFsIndividualFileExtraction_PartyName_OrderID.py:21-26 | one iteration on line `i` takes the last party and order id of lines `1 .. i-1` to those of lines `1 .. i` |
| Fields.ExtractPartyAndOrder | Utility/PDFsIndividualFileExtraction_PartyName_OrderID.py:12-35 | the overwriting loop returns exactly that composite name |
| Fields.PartyAndOrderShape | PDFsIndividualFileExtraction_PartyName_OrderID.py:28-34 | the result exists exactly when a non-empty party and an order id were found; it is then the stripped, sanitised party, `_` and the non-empty digit run |
| Fields.ComposedNameIsClean | Utility/PDF_textExtraction_Renaming.py:56-62 | a clean name, `_` and digits make a clean name, so the outer sanitising has nothing left to change |
| Fields.OrderIdFromLastMatch | Utility/PDF_textExtraction_Renaming.py:47-54 | the order id comes from the last line on which the pattern matches; later `ID :` lines without a match do not clear it |
| Fields.PartyFromLastMarker | Utility/PDFsIndividualFileExtraction_PartyName_OrderID.py:20-22 | the party comes from the line above the last `M/s` line at index 1 or later |
| Pdf.PyRange | singlePDF_MultiExtraction_PartyName.py:56 | `range(a, b)` has `b - a` elements (none when `b <= a`), the i-th being `a + i` |
| Pdf.PyRangeJoin | Utility/singlePDF_MultiExtraction_PartyName.py:56 | two adjacent ranges concatenate into one |
| Pdf.FlattenAppend | singlePDF_MultiExtraction_PartyName.py:55-57 | the pages of two lists of ranges are those of the first list followed by those of the second |
| Pdf.FlattenMember | Utility/singlePDF_MultiExtraction_PartyName.py:55-57 | a page is copied exactly when it lies in one of the ranges |
| Pdf.FlattenIncreasing | singlePDF_MultiExtraction_PartyName.py:53-57 | ranges in ascending, non-overlapping order copy pages in strictly increasing order |
| Pdf.FlattenContiguous | PDFsIndividualFileExtraction_PartyName_OrderID.py:62-65 | contiguous ranges copy exactly the pages from the first start to the last end |
| Pdf.PdfNameCases | singlePDF_MultiExtraction_PartyName.py:67 | a name passes the filter exactly when its last four characters are `.pdf` in any letter case |
| Pdf.LastWriteWins | PDFsIndividualFileExtraction_PartyName_OrderID.py:67-69 | a file holds what the last save to its name wrote |
| Pdf.DirectoryNames | Utility/PDFsIndividualFileExtraction_PartyName_OrderID.py:67-69 | a name is present after the saves exactly when some save used it |
| Pdf.PdfNamesMember | singlePDF_MultiExtraction_PartyName.py:66-67 | a name is processed exactly when it is in the listing and passes the `.pdf` filter |
| Pdf.CopyRange | PDFsIndividualFileExtraction_PartyName_OrderID.py:64-65 | the copy loop inserts the pages `start` to `end` inclusive, in order |
| Pdf.PdfSuffixInjective | singlePDF_MultiExtraction_PartyName.py:59 | different names give different `name.pdf` files |
| Segmentation.MarkersBelow | singlePDF_MultiExtraction_PartyName.py:35-44 | the marker pages below a bound are listed in increasing order, and every listed page is a marker below the bound |
| Segmentation.MarkersBelowComplete | singlePDF_MultiExtraction_PartyName.py:39-40 | every marker page below the bound is listed |
| Segmentation.Segment | singlePDF_MultiExtraction_PartyName.py:35-48 | there is one span per marker page, and each runs from a start to an end with `start <= end <= num_pages - 1` |
| Segmentation.SegmentContiguous | PDFsIndividualFileExtraction_PartyName_OrderID.py:46-59 | each span ends one page before the next starts, and the last ends on the last page |
| Segmentation.OpensExactlyAtMarkers | singlePDF_MultiExtraction_PartyName.py:39-44 | a page opens a span exactly when its extractor result is truthy, and the span carries that result, even when it repeats the previous one |
| Segmentation.NoMarkerInsideSpan | Utility/PDFsIndividualFileExtraction_PartyName_OrderID.py:50-55 | no page after a span's first page is a marker page of the same span |
| Segmentation.SegmentRangesContiguous | Utility/singlePDF_MultiExtraction_PartyName.py:40-48 | the recorded ranges are contiguous |
| Segmentation.NoSpanIffNoMarker | singlePDF_MultiExtraction_PartyName.py:35-48 | there are no spans exactly when no page is a marker |
| Segmentation.SegmentPages | singlePDF_MultiExtraction_PartyName.py:40-48 | the spans together hold exactly the pages from the first marker to the last page, each once and in order, and nothing when there is no marker |
| Segmentation.Coverage | Utility/singlePDF_MultiExtraction_PartyName.py:30-44 | a page lies in a span exactly when some marker comes at or before it, so pages before the first marker are dropped |
| Segmentation.Disjoint | singlePDF_MultiExtraction_PartyName.py:42-48 | no page lies in two spans |
| Segmentation.ClosedSnoc | PDFsIndividualFileExtraction_PartyName_OrderID.py:52-53 | one more marker closes the previous last span one page before it |
| Segmentation.StepOther | PDFsIndividualFileExtraction_PartyName_OrderID.py:50-51 | a page without a marker changes neither the open span nor the closed spans |
| Segmentation.StepMarker | Utility/PDFsIndividualFileExtraction_PartyName_OrderID.py:50-55 | a marker page opens a span at itself and, when a span is open, closes it at the page before |
| Segmentation.Finish | Utility/PDFsIndividualFileExtraction_PartyName_OrderID.py:58-59 | after the last page, the open span, if any, closes at `num_pages - 1` and completes the reference spans |
| Segmentation.StepReference | singlePDF_MultiExtraction_PartyName.py:39-44 | one loop step takes the reference state after `p` pages to the one after `p + 1` |
| Segmentation.Run | PDFsIndividualFileExtraction_PartyName_OrderID.py:46-55 | after any number of pages, an open span started on a page already seen |
| Segmentation.RunMatchesReference | PDFsIndividualFileExtraction_PartyName_OrderID.py:46-55 | after `p` pages the loop's variables are the last marker so far and the spans closed before it |
| Segmentation.RunSegments | Utility/PDFsIndividualFileExtraction_PartyName_OrderID.py:46-59 | running the loop over every page and closing the last span yields exactly the reference spans |
| Segmentation.SpanLabel | PDFsIndividualFileExtraction_PartyName_OrderID.py:53-55 | each span is named by the non-empty extractor result of its first page |
| PartySplit.SpanPartyName | singlePDF_MultiExtraction_PartyName.py:39-44 | each span starts on a page whose `extract_party_name` result is its non-empty, clean, stripped key, and every later page of the span yields `None` or `""` |
| PartySplit.FirstSeenMembers | singlePDF_MultiExtraction_PartyName.py:53 | the keys visited for saving are the parties of the spans, each once |
| PartySplit.RangesOfUnseen | singlePDF_MultiExtraction_PartyName.py:32 | a party with no span has no ranges |
| PartySplit.Group | Utility/singlePDF_MultiExtraction_PartyName.py:32 | the key order and the dictionary hold the same parties, and no key repeats |
| PartySplit.GroupAppend | singlePDF_MultiExtraction_PartyName.py:42 | closing one more span is one `defaultdict` append under its party |
| PartySplit.GroupContents | Utility/singlePDF_MultiExtraction_PartyName.py:42 | the keys are the parties in order of first appearance, and each holds exactly its spans' ranges in span order |
| PartySplit.AppendRange | singlePDF_MultiExtraction_PartyName.py:42-48 | the two-part update of key order and map is the `defaultdict` append |
| PartySplit.AdvancePage | singlePDF_MultiExtraction_PartyName.py:39-44 | one loop iteration is one step of the span machine, and the dictionary stays the grouping of the closed spans |
| PartySplit.CloseLast | singlePDF_MultiExtraction_PartyName.py:46-48 | the final append closes the open span at `num_pages - 1` and keeps the dictionary the grouping of all closed spans |
| PartySplit.SplitByPartyName | singlePDF_MultiExtraction_PartyName.py:26-50 | the loop builds exactly the grouping of the reference spans of the document |
| PartySplit.RangesOfMember | Utility/singlePDF_MultiExtraction_PartyName.py:40-48 | a range is under a party exactly when it is the range of a span with that party |
| PartySplit.RangesOfAscending | singlePDF_MultiExtraction_PartyName.py:42 | the ranges under one party stay in ascending page order |
| PartySplit.PartyKeysClean | singlePDF_MultiExtraction_PartyName.py:59 | every key, and so every output name without `.pdf`, is non-empty, clean and stripped |
| PartySplit.SegmentAscending | Utility/singlePDF_MultiExtraction_PartyName.py:35-48 | each span lies wholly before the next |
| PartySplit.MergedPagesAscending | singlePDF_MultiExtraction_PartyName.py:53-57 | a party's merged output holds its pages in strictly increasing order, without repeats |
| PartySplit.MergedPagesMember | Utility/singlePDF_MultiExtraction_PartyName.py:53-57 | a page is in a party's output exactly when it lies in a span of that party |
| PartySplit.CopyRanges | singlePDF_MultiExtraction_PartyName.py:55-57 | the nested copy loops insert the pages of every range, range after range |
| PartySplit.SaveSplitPdfs | singlePDF_MultiExtraction_PartyName.py:52-63 | one file per key, in key order, is named `party.pdf` and holds all that party's pages |
| PartySplit.EveryPartyKept | Utility/singlePDF_MultiExtraction_PartyName.py:59-61 | within one document no party's file is overwritten by another's: each file holds its party's pages |
| PartySplit.ProcessPdfDirectory | singlePDF_MultiExtraction_PartyName.py:65-71 | exactly the `.pdf` entries are processed, in listing order, each split and saved |
| OrderSplit.AdvancePage | PDFsIndividualFileExtraction_PartyName_OrderID.py:50-55 | one loop iteration is one step of the span machine: a truthy name appends the open span closed at `page_num - 1` and opens a new one |
| OrderSplit.DemergeSplits | PDFsIndividualFileExtraction_PartyName_OrderID.py:37-59 | the split loop builds exactly the reference spans, in page order and without merging |
| OrderSplit.OutputNameShape | PDFsIndividualFileExtraction_PartyName_OrderID.py:20-34 | every output name before `.pdf` is clean and is the `_`-sanitised, stripped party above the last `M/s` line of the span's first page, `_`, and the non-empty digit run of that page's last `ID : ` match |
| OrderSplit.SpanOutputsPages | PDFsIndividualFileExtraction_PartyName_OrderID.py:62-65 | the outputs copy the spans' page ranges, span after span |
| OrderSplit.WriteSpans | Utility/PDFsIndividualFileExtraction_PartyName_OrderID.py:62-71 | the output loop writes per span exactly its pages `start` to `end` under `label.pdf` |
| OrderSplit.DemergeAndRenamePdf | PDFsIndividualFileExtraction_PartyName_OrderID.py:37-71 | one document becomes the outputs of its reference spans |
| OrderSplit.DocumentPages | Utility/PDFsIndividualFileExtraction_PartyName_OrderID.py:46-65 | together a document's outputs hold each page from its first named page to its last page, once and in order, and nothing when no page is named |
| OrderSplit.LastSpanWins | PDFsIndividualFileExtraction_PartyName_OrderID.py:67-69 | a file named by a repeated label holds exactly the pages of the last span with that label |
| OrderSplit.OutputNames | Utility/PDFsIndividualFileExtraction_PartyName_OrderID.py:67-69 | a file is written exactly for the names `label.pdf` of the spans |
| OrderSplit.ProcessPdfDirectory | PDFsIndividualFileExtraction_PartyName_OrderID.py:73-78 | exactly the `.pdf` entries are demerged, in listing order |
| Renaming.ConcatAppend | Utility/PDF_textExtraction_Renaming.py:14 | the text of two runs of pages is the first run's text followed by the second's |
| Renaming.PageTextOccurs | Utility/PDF_textExtraction_Renaming.py:12-15 | each page's text sits in the whole text right after the text of the pages before it |
| Renaming.ExtractAllText | Utility/PDF_textExtraction_Renaming.py:8-32 | the `+=` loop (direct or OCR) returns the page texts joined in order, or `""` when reading fails |
| Renaming.ChosenTextCases | Utility/PDF_textExtraction_Renaming.py:77-80 | the OCR text replaces the direct text exactly when the direct text is empty or all whitespace, a read error included |
| Renaming.NewNameShape | Utility/PDF_textExtraction_Renaming.py:56-63 | a file is renamed exactly when a non-empty party and an order id are found; the new name is the deleted-sanitised, stripped party, `_`, the digits and `.pdf`, and clean before `.pdf` |
| Renaming.ScanFile | Utility/PDF_textExtraction_Renaming.py:75-88 | the loop body computes the chosen text and the new name of one entry |
| Renaming.RecordEntry | Utility/PDF_textExtraction_Renaming.py:74-88 | a `.pdf` entry adds its outcome, so `text_data` and the renames stay those of the outcomes so far; any other entry changes nothing |
| Renaming.ExtractTextFromDirectory | Utility/PDF_textExtraction_Renaming.py:71-89 | the loop builds `text_data` and the renames from the `.pdf` entries, in listing order |
| Renaming.ScannedMember | Utility/PDF_textExtraction_Renaming.py:73-74 | an entry is scanned exactly when it passes the `.pdf` filter |
| Renaming.TextDataKeys | Utility/PDF_textExtraction_Renaming.py:82 | the keys of `text_data` are exactly the names of the scanned entries |
| Renaming.TextDataValue | Utility/PDF_textExtraction_Renaming.py:82 | the text stored under a name is the chosen text of the last entry with that name |
| Renaming.RenamesMember | Utility/PDF_textExtraction_Renaming.py:65-69 | a rename happens exactly for a scanned entry with a new name, from its old name to that name |

## Left out

- Reading PDFs: `fitz.open`, `load_page`, `get_text`, pixmap rendering and `pytesseract` OCR are I/O. A document is given as its page texts. `Renaming.ScannedFile` gives both the direct and the OCR page texts, or `None` when reading raises. The OCR texts are only used when the direct text is blank, but the model does not capture that OCR runs lazily.
- Writing PDFs: `insert_pdf`, `save` and `close` are I/O. An output is a name plus the page indices copied into it, and the output directory is a map in which a later save replaces an earlier one.
- PartySplit.ProcessPdfDirectory, OrderSplit.ProcessPdfDirectory: the model assumes every document opens and reads and every save succeeds. The scripts call `fitz.open`, `load_page`, `get_text` and `save` outside any `try`, so the first exception ends the directory loop and the later entries are not processed.
- Renaming.ExtractTextFromDirectory: each `os.rename` is recorded as an old name and a new name, and the model assumes it succeeds. In the script a failing rename (the target exists on Windows, or two entries get the same new name) raises inside `rename_pdf_file`, which ends `extract_text_from_directory`: the later entries are not processed and `text_data` is never returned.
- `os.listdir` order is an input: the listing is a sequence in the order the loop visits it.
- Output paths are names only: `os.path.join` with the output directory is left out.
- Windows' case-insensitive file names are not modelled: `A.pdf` and `a.pdf` are different keys of the output directory.
- `print` output and the module-level script code with hard-coded paths are side effects that compute nothing.
- `businessTools.py`, `Utility/PDFDirectory_textExtraction.py` and `Utility/PDF_TextExtraction.py` (a GUI and plain text extraction) are not part of this model.
- PyStr.Lower: only ASCII letters are lower-cased, not the full Unicode case mapping of `str.lower`.
- PyStr.IsDigit: only the ASCII digits `0`-`9` are modelled, not every Unicode decimal digit that `\d` matches in a Python `str` pattern.
- The general regular-expression engine is not modelled. `re.sub` with the character class is the two sanitisers. `re.search(r"ID : (\d+)")` is the leftmost `ID : ` followed by a digit, with the greedy run of digits after it.
- `current_party_name` and `current_start_page` are modelled as one tagged state, either no span open or a span open with a start and a name. The scripts' `current_party_name` is truthy exactly when a span is open, so the two agree.
