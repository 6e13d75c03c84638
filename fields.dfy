/**
 * The line-oriented field extractors. A page's text is split into lines and
 * searched for a keyword line; the party name is the stripped line just above
 * it, and the order id is the digit run of `ID : (\d+)`.
 *
 * - `extract_party_name` (party-only script): the FIRST line at index 1 or
 *   later containing `"M/s."` decides; the result is sanitised by deletion.
 * - `extract_party_name_and_order_id` (order-id and renaming scripts): every
 *   line at index 1 or later is visited and the LAST match wins for each field;
 *   the keyword is `"M/s"` (no dot).
 */
module Fields {
  import opened Wrappers
  import opened PyStr
  import opened Sanitize

  const PartyMarker: string := "M/s."
  const LoosePartyMarker: string := "M/s"
  const OrderKeyword: string := "ID :"
  /** The literal part of the pattern `ID : (\d+)`. */
  const OrderPrefix: string := "ID : "

  /** The smallest index `j >= from` whose line satisfies `p`. */
  function FirstLineWhere(lines: seq<string>, p: string -> bool, from: nat): (r: Option<nat>)
    decreases |lines| - from
    ensures r.Some? ==> from <= r.value < |lines| && p(lines[r.value])
    ensures r.Some? ==> forall j :: from <= j < r.value ==> !p(lines[j])
    ensures r.None? ==> forall j :: from <= j < |lines| ==> !p(lines[j])
  {
    if from >= |lines| then None
    else if p(lines[from]) then Some(from)
    else FirstLineWhere(lines, p, from + 1)
  }

  /** The largest index `j` with `1 <= j < n` whose line satisfies `p`. */
  function LastLineWhere(lines: seq<string>, p: string -> bool, n: nat): (r: Option<nat>)
    requires n <= |lines|
    ensures r.Some? ==> 1 <= r.value < n && p(lines[r.value])
    ensures r.Some? ==> forall j :: r.value < j < n ==> !p(lines[j])
    ensures r.None? ==> forall j :: 1 <= j < n ==> !p(lines[j])
  {
    if n <= 1 then None
    else if p(lines[n - 1]) then Some(n - 1)
    else LastLineWhere(lines, p, n - 1)
  }

  // ---------------------------------------------------------------------------
  // extract_party_name

  predicate IsPartyLine(line: string) {
    Contains(line, PartyMarker)
  }

  /**
   * What `extract_party_name(text)` returns: the line above the first line at
   * index 1 or later that contains `"M/s."`, stripped, sanitised by deletion
   * and stripped again; `None` when there is no such line or the line above
   * strips to the empty string. The result may still be empty (a line made of
   * illegal characters), which the splitter treats as "no marker".
   */
  function PartyName(text: string): (r: Option<string>)
    ensures r.Some? ==> Clean(r.value) && Strip(r.value) == r.value
  {
    var lines := SplitLines(text);
    match FirstLineWhere(lines, IsPartyLine, 1)
    case None => None
    case Some(i) =>
      var above := Strip(lines[i - 1]);
      if above == "" then None
      else
        DeleteClean(above);
        StripIdempotent(SanitizeDelete(above));
        StripClean(SanitizeDelete(above));
        Some(Strip(SanitizeDelete(above)))
  }

  /** `extract_party_name`: the early-exit loop over the lines. */
  method ExtractPartyName(text: string) returns (r: Option<string>)
    ensures r == PartyName(text)
  {
    var lines := SplitLines(text);
    var partyName: Option<string> := None;
    var i := 1;
    while i < |lines|
      invariant 1 <= i <= |lines|
      invariant partyName == None
      invariant FirstLineWhere(lines, IsPartyLine, 1) == FirstLineWhere(lines, IsPartyLine, i)
    {
      if Contains(lines[i], PartyMarker) {
        partyName := Some(Strip(lines[i - 1]));
        break;
      }
      i := i + 1;
    }
    if partyName.Some? && partyName.value != "" {
      r := Some(Strip(SanitizeDelete(partyName.value)));
    } else {
      r := None;
    }
  }

  /**
   * When line `i >= 1` is the first line at index 1 or later that contains
   * `"M/s."`, the party name is taken from line `i - 1`.
   */
  lemma PartyNameFromFirstMarker(text: string, i: nat)
    requires 1 <= i < |SplitLines(text)|
    requires IsPartyLine(SplitLines(text)[i])
    requires forall j :: 1 <= j < i ==> !IsPartyLine(SplitLines(text)[j])
    ensures var above := Strip(SplitLines(text)[i - 1]);
            PartyName(text) == if above == "" then None else Some(Strip(SanitizeDelete(above)))
  {
    var lines := SplitLines(text);
    assert FirstLineWhere(lines, IsPartyLine, 1) == Some(i);
  }

  /** Without an `"M/s."` line at index 1 or later there is no party name; line 0 is never tested. */
  lemma PartyNameAbsent(text: string)
    requires forall j :: 1 <= j < |SplitLines(text)| ==> !IsPartyLine(SplitLines(text)[j])
    ensures PartyName(text) == None
  {
  }

  /** A text of one line has no party name, whatever that line holds. */
  lemma SingleLineHasNoParty(text: string)
    requires '\n' !in text
    ensures PartyName(text) == None
  {
    SplitSingle(text);
  }

  // ---------------------------------------------------------------------------
  // re.search(r"ID : (\d+)", line)

  /** The pattern `ID : \d` matches at index `k` of `line`. */
  predicate IdMatchAt(line: string, k: nat) {
    k + |OrderPrefix| < |line| && line[k..k + |OrderPrefix|] == OrderPrefix && IsDigit(line[k + |OrderPrefix|])
  }

  /** The leftmost index `k >= from` at which the pattern matches. */
  function FirstIdMatch(line: string, from: nat): (r: Option<nat>)
    decreases |line| - from
    ensures r.Some? ==> from <= r.value && IdMatchAt(line, r.value)
    ensures r.Some? ==> forall k :: from <= k < r.value ==> !IdMatchAt(line, k)
    ensures r.None? ==> forall k :: from <= k ==> !IdMatchAt(line, k)
  {
    if from >= |line| then None
    else if IdMatchAt(line, from) then Some(from)
    else FirstIdMatch(line, from + 1)
  }

  /** The maximal run of digits starting at index `k`: the greedy `(\d+)` group. */
  function DigitsAt(line: string, k: nat): (d: string)
    requires k <= |line|
    ensures k + |d| <= |line| && d == line[k..k + |d|]
    ensures forall i :: 0 <= i < |d| ==> IsDigit(d[i])
    ensures k + |d| < |line| ==> !IsDigit(line[k + |d|])
  {
    var rest := line[k..];
    rest[..LeadingRun(rest, IsDigit)]
  }

  /**
   * `re.search(r"ID : (\d+)", line).group(1)`, or `None` when the search
   * fails: the digits after the leftmost `"ID : "` that is followed by a digit.
   * A match always implies the `"ID :"` keyword test.
   */
  function SearchOrderId(line: string): (r: Option<string>)
    ensures r.Some? ==> r.value != [] && forall i :: 0 <= i < |r.value| ==> IsDigit(r.value[i])
    ensures r.Some? ==> Contains(line, OrderKeyword)
    ensures r.None? <==> forall k :: !IdMatchAt(line, k)
  {
    match FirstIdMatch(line, 0)
    case None => None
    case Some(k) =>
      var d := DigitsAt(line, k + |OrderPrefix|);
      assert line[k..k + |OrderKeyword|] == line[k..k + |OrderPrefix|][..|OrderKeyword|];
      assert OccursAt(line, OrderKeyword, k);
      Some(d)
  }

  /**
   * The search result is the digit run right after the leftmost match of
   * `ID : \d`, taken up to the first non-digit.
   */
  lemma SearchOrderIdAt(line: string, k: nat)
    requires IdMatchAt(line, k)
    requires forall j :: 0 <= j < k ==> !IdMatchAt(line, j)
    ensures SearchOrderId(line) == Some(DigitsAt(line, k + |OrderPrefix|))
  {
  }

  // ---------------------------------------------------------------------------
  // extract_party_name_and_order_id

  predicate IsLoosePartyLine(line: string) {
    Contains(line, LoosePartyMarker)
  }

  /** A line that sets `order_id`: it contains `"ID :"` and the pattern matches on it. */
  predicate IsOrderLine(line: string) {
    Contains(line, OrderKeyword) && SearchOrderId(line).Some?
  }

  /** `party_name` once the loop has visited lines `1 .. n-1`. */
  function LastParty(lines: seq<string>, n: nat): Option<string>
    requires n <= |lines|
  {
    match LastLineWhere(lines, IsLoosePartyLine, n)
    case None => None
    case Some(j) => Some(Strip(lines[j - 1]))
  }

  /** `order_id` once the loop has visited lines `1 .. n-1`. */
  function LastOrderId(lines: seq<string>, n: nat): Option<string>
    requires n <= |lines|
  {
    match LastLineWhere(lines, IsOrderLine, n)
    case None => None
    case Some(j) => SearchOrderId(lines[j])
  }

  /**
   * What `extract_party_name_and_order_id(text)` returns, with the sanitiser
   * of the script it belongs to: `None` unless both fields are non-empty,
   * otherwise `sanitize(sanitize(party).strip() + "_" + order_id)`.
   */
  function PartyAndOrder(mode: Mode, text: string): (r: Option<string>)
    ensures r.Some? ==> Clean(r.value)
  {
    var lines := SplitLines(text);
    var party := LastParty(lines, |lines|);
    var order := LastOrderId(lines, |lines|);
    if party.Some? && party.value != "" && order.Some? && order.value != "" then
      var name := Strip(Sanitized(mode, party.value));
      SanitizedSpec(mode, name + "_" + order.value);
      Some(Sanitized(mode, name + "_" + order.value))
    else None
  }

  /** Visiting line `i` sets `party_name` from the line above when line `i` contains `"M/s"`. */
  lemma LastPartyStep(lines: seq<string>, i: nat)
    requires 1 <= i < |lines|
    ensures LastParty(lines, i + 1) == if IsLoosePartyLine(lines[i]) then Some(Strip(lines[i - 1])) else LastParty(lines, i)
  {
    assert LastLineWhere(lines, IsLoosePartyLine, i + 1) ==
      if IsLoosePartyLine(lines[i]) then Some(i) else LastLineWhere(lines, IsLoosePartyLine, i);
  }

  /** Visiting line `i` sets `order_id` when the pattern matches on line `i`. */
  lemma LastOrderIdStep(lines: seq<string>, i: nat)
    requires 1 <= i < |lines|
    ensures LastOrderId(lines, i + 1) == if IsOrderLine(lines[i]) then SearchOrderId(lines[i]) else LastOrderId(lines, i)
  {
    assert LastLineWhere(lines, IsOrderLine, i + 1) ==
      if IsOrderLine(lines[i]) then Some(i) else LastLineWhere(lines, IsOrderLine, i);
  }

  /** The loop body of `extract_party_name_and_order_id` for line `i`: a match overwrites its field. */
  method VisitLine(lines: seq<string>, i: nat, partyName: Option<string>, orderId: Option<string>)
      returns (partyName': Option<string>, orderId': Option<string>)
    requires 1 <= i < |lines|
    requires partyName == LastParty(lines, i) && orderId == LastOrderId(lines, i)
    ensures partyName' == LastParty(lines, i + 1) && orderId' == LastOrderId(lines, i + 1)
  {
    LastPartyStep(lines, i);
    LastOrderIdStep(lines, i);
    partyName', orderId' := partyName, orderId;
    if Contains(lines[i], LoosePartyMarker) {
      partyName' := Some(Strip(lines[i - 1]));
    }
    if Contains(lines[i], OrderKeyword) {
      var m := SearchOrderId(lines[i]);
      if m.Some? {
        orderId' := m;
      }
    }
  }

  /** `extract_party_name_and_order_id`: one pass over the lines, later matches overwriting earlier ones. */
  method ExtractPartyAndOrder(mode: Mode, text: string) returns (r: Option<string>)
    ensures r == PartyAndOrder(mode, text)
  {
    var lines := SplitLines(text);
    var partyName: Option<string> := None;
    var orderId: Option<string> := None;
    for i := 1 to |lines|
      invariant partyName == LastParty(lines, i)
      invariant orderId == LastOrderId(lines, i)
    {
      partyName, orderId := VisitLine(lines, i, partyName, orderId);
    }
    if partyName.Some? && partyName.value != "" && orderId.Some? && orderId.value != "" {
      var name := Sanitized(mode, partyName.value);
      name := Strip(name);
      r := Some(Sanitized(mode, name + "_" + orderId.value));
    } else {
      r := None;
    }
  }

  /**
   * The composite result is present exactly when a non-empty party name and
   * an order id were found, and then it is the sanitised, stripped party name,
   * an underscore and the order id's digits; the outer sanitisation changes
   * nothing more.
   */
  lemma PartyAndOrderShape(mode: Mode, text: string)
    ensures var lines := SplitLines(text);
            var party := LastParty(lines, |lines|);
            var order := LastOrderId(lines, |lines|);
            && (PartyAndOrder(mode, text).Some? <==> party.Some? && party.value != "" && order.Some?)
            && (PartyAndOrder(mode, text).Some? ==>
                  && order.value != []
                  && (forall i :: 0 <= i < |order.value| ==> IsDigit(order.value[i]))
                  && PartyAndOrder(mode, text).value == Strip(Sanitized(mode, party.value)) + "_" + order.value)
  {
    var lines := SplitLines(text);
    var party := LastParty(lines, |lines|);
    var order := LastOrderId(lines, |lines|);
    if party.Some? && party.value != "" && order.Some? {
      SanitizedSpec(mode, party.value);
      StripClean(Sanitized(mode, party.value));
      ComposedNameIsClean(Strip(Sanitized(mode, party.value)), order.value);
      SanitizedSpec(mode, Strip(Sanitized(mode, party.value)) + "_" + order.value);
    }
  }

  /** A clean name, an underscore and a digit run make a clean string. */
  lemma ComposedNameIsClean(name: string, digits: string)
    requires Clean(name)
    requires forall i :: 0 <= i < |digits| ==> IsDigit(digits[i])
    ensures Clean(name + "_" + digits)
  {
    var raw := name + "_" + digits;
    forall i | 0 <= i < |raw|
      ensures !IsIllegal(raw[i])
    {
      if i < |name| {
        assert raw[i] == name[i];
      } else if i > |name| {
        assert raw[i] == digits[i - |name| - 1];
      }
    }
  }

  /**
   * The order id comes from the last line at index 1 or later on which the
   * pattern matches: any later line, `"ID :"` lines where the pattern fails
   * included, leaves it alone.
   */
  lemma OrderIdFromLastMatch(lines: seq<string>, j: nat)
    requires 1 <= j < |lines|
    requires IsOrderLine(lines[j])
    requires forall k :: j < k < |lines| ==> SearchOrderId(lines[k]).None?
    ensures LastOrderId(lines, |lines|) == SearchOrderId(lines[j])
  {
  }

  /** The party name comes from the line above the last `"M/s"` line at index 1 or later. */
  lemma PartyFromLastMarker(lines: seq<string>, j: nat)
    requires 1 <= j < |lines|
    requires IsLoosePartyLine(lines[j])
    requires forall k :: j < k < |lines| ==> !IsLoosePartyLine(lines[k])
    ensures LastParty(lines, |lines|) == Some(Strip(lines[j - 1]))
  {
  }
}
