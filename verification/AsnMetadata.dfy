/** The registry of autonomous systems: number text, accepted documents, and lookup by binary search. */
module AsnMetadata {
  import opened Decimal
  import opened Lists
  import opened Sorting
  import opened Text

  const SCHEMA := "backtrace.asn-metadata/v1"

  datatype Entry = Entry(asn: nat, name: string)

  /** A decoded document; a missing or zero timestamp is marked. */
  datatype Document = Document(schema: string, zeroTime: bool, entries: seq<Entry>)

  // ----- the text of a number -----

  function TrimPrefix(s: string, prefix: string): string {
    if prefix <= s then s[|prefix|..] else s
  }

  /** The number a text denotes: 1 to 2^32 - 1, in decimal, with an optional AS in any case. */
  function Number(value: string): (n: Option<nat>)
    ensures n.Some? ==> 1 <= n.value <= UINT32_MAX
  {
    var digits := TrimPrefix(ToUpper(TrimSpace(value)), "AS");
    if digits == "" then None
    else
      var n := ParseUint32(digits);
      if n.None? || n.value == 0 then None else n
  }

  function NormalizeASN(value: string): Option<string> {
    var n := Number(value);
    if n.None? then None else Some(Format(n.value))
  }

  lemma DigitsAreUpper(s: string)
    requires AllDigits(s)
    ensures ToUpper(s) == s && Trimmed(s) && TrimSpace(s) == s && TrimPrefix(s, "AS") == s
  {
  }

  /** A printed number denotes itself. */
  lemma PrintedNumber(n: nat)
    requires 1 <= n <= UINT32_MAX
    ensures Number(Format(n)) == Some(n)
  {
    FormatValue(n);
    DigitsAreUpper(Format(n));
    hide ToUpper, TrimSpace, TrimPrefix, Format;
  }

  /** The normal form is the plain decimal of a number from 1 to 2^32 - 1, and normalising it again changes nothing. */
  lemma NormalizeIdempotent(value: string)
    requires NormalizeASN(value).Some?
    ensures var r := NormalizeASN(value).value;
            NormalizeASN(r) == Some(r) && Number(r) == Number(value) && AllDigits(r)
  {
    hide Number, Format;
    PrintedNumber(Number(value).value);
  }

  /** Two texts have the same normal form exactly when they denote the same number. */
  lemma SameNormalForm(a: string, b: string)
    requires NormalizeASN(a).Some? && NormalizeASN(b).Some?
    ensures NormalizeASN(a) == NormalizeASN(b) <==> Number(a) == Number(b)
  {
    hide Number, Format;
    FormatValue(Number(a).value);
    FormatValue(Number(b).value);
  }

  predicate Blank(s: string) {
    forall i :: 0 <= i < |s| ==> IsSpace(s[i])
  }

  lemma {:induction false} TrimLeftBlank(left: string, s: string)
    requires Blank(left) && s != "" && !IsSpace(s[0])
    ensures TrimLeft(left + s) == s
  {
    hide IsSpace;
    if left == "" {
      assert left + s == s;
    } else {
      assert (left + s)[1..] == left[1..] + s;
      TrimLeftBlank(left[1..], s);
    }
  }

  lemma {:induction false} TrimRightBlank(s: string, right: string)
    requires Blank(right) && s != "" && !IsSpace(s[|s|-1])
    ensures TrimRight(s + right) == s
  {
    hide IsSpace;
    if right == "" {
      assert s + right == s;
    } else {
      assert (s + right)[..|s + right|-1] == s + right[..|right|-1];
      TrimRightBlank(s, right[..|right|-1]);
    }
  }

  lemma TrimAround(left: string, s: string, right: string)
    requires Blank(left) && Blank(right) && s != "" && Trimmed(s)
    ensures TrimSpace(left + s + right) == s
  {
    hide IsSpace, TrimLeft, TrimRight;
    assert left + s + right == left + (s + right);
    TrimLeftBlank(left, s + right);
    TrimRightBlank(s, right);
  }

  /** Upper or lower case AS, or none, with blanks around: every spelling of a number normalises to its digits. */
  lemma SpellingsAgree(n: nat, left: string, mark: string, right: string)
    requires 1 <= n <= UINT32_MAX && Blank(left) && Blank(right)
    requires |mark| == 0 || (|mark| == 2 && UpperChar(mark[0]) == 'A' && UpperChar(mark[1]) == 'S')
    ensures NormalizeASN(left + mark + Format(n) + right) == Some(Format(n))
  {
    hide ToUpper, TrimSpace, TrimPrefix, Format, UpperChar, Blank, AllDigits, Trimmed, Value, IsSpace;
    var digits := Format(n);
    var s := mark + digits;
    FormatValue(n);
    MarkedDigits(mark, digits);
    TrimAround(left, s, right);
    assert left + s + right == left + mark + digits + right;
    assert ParseUint32(digits) == Some(n);
    hide ParseUint32;
    assert Number(left + mark + digits + right) == Some(n);
  }

  lemma MarkedDigits(mark: string, digits: string)
    requires AllDigits(digits) && digits != ""
    requires |mark| == 0 || (|mark| == 2 && UpperChar(mark[0]) == 'A' && UpperChar(mark[1]) == 'S')
    ensures Trimmed(mark + digits) && TrimPrefix(ToUpper(mark + digits), "AS") == digits
  {
    var s := mark + digits;
    if mark == "" {
      assert s == digits;
      DigitsAreUpper(digits);
    } else {
      assert ToUpper(s)[0] == 'A' && ToUpper(s)[1] == 'S';
      assert ToUpper(s)[2..] == digits;
      assert "AS" <= ToUpper(s);
    }
  }

  /** The text is this number: digits, before them nothing or AS in any case, and blanks around. */
  ghost predicate Spells(value: string, n: nat, left: string, mark: string, digits: string, right: string) {
    && value == left + mark + digits + right && Blank(left) && Blank(right)
    && (mark == "" || (|mark| == 2 && UpperChar(mark[0]) == 'A' && UpperChar(mark[1]) == 'S'))
    && digits != "" && AllDigits(digits) && Value(digits) == n
  }

  /** A text denotes a number exactly when it spells one from 1 to 2^32 - 1. */
  lemma NumberExactly(value: string, n: nat)
    ensures Number(value) == Some(n) <==>
            1 <= n <= 0xFFFF_FFFF && exists left, mark, digits, right :: Spells(value, n, left, mark, digits, right)
  {
    hide ToUpper, TrimSpace, TrimPrefix, UpperChar, Blank, AllDigits, Trimmed, Value, IsSpace;
    if 1 <= n <= 0xFFFF_FFFF {
      if left, mark, digits, right :| Spells(value, n, left, mark, digits, right) {
        MarkedDigits(mark, digits);
        TrimAround(left, mark + digits, right);
        assert left + (mark + digits) + right == value;
      }
    }
    if Number(value) == Some(n) {
      var left, right := TrimExactly(value);
      var mark, digits := SplitMark(TrimSpace(value));
      SpaceBlank(left);
      SpaceBlank(right);
      assert value == left + mark + digits + right;
      assert Spells(value, n, left, mark, digits, right);
    }
  }

  lemma SpaceBlank(s: string)
    requires AllSpace(s)
    ensures Blank(s)
  {
    assert forall i :: 0 <= i < |s| ==> s[i] in s;
  }

  /** Only a digit has a digit as its upper case. */
  lemma SplitMark(s: string) returns (mark: string, digits: string)
    requires AllDigits(TrimPrefix(ToUpper(s), "AS"))
    ensures s == mark + digits && digits == TrimPrefix(ToUpper(s), "AS")
    ensures mark == "" || (|mark| == 2 && UpperChar(mark[0]) == 'A' && UpperChar(mark[1]) == 'S')
  {
    var u := ToUpper(s);
    var k := if "AS" <= u then 2 else 0;
    mark, digits := s[..k], s[k..];
    assert TrimPrefix(u, "AS") == u[k..];
    forall i | 0 <= i < |digits| ensures digits[i] == u[k..][i] {
      assert IsDigit(u[k..][i]);
    }
    if k == 2 { assert u[0] == "AS"[0] && u[1] == "AS"[1]; }
  }

  // ----- accepted documents -----

  function TrimName(e: Entry): Entry {
    e.(name := TrimSpace(e.name))
  }

  function ByAsn(): (Entry, Entry) -> bool {
    (a: Entry, b: Entry) => a.asn <= b.asn
  }

  predicate Usable(e: Entry) {
    e.asn != 0 && TrimSpace(e.name) != ""
  }

  ghost predicate DistinctAsns(entries: seq<Entry>) {
    forall i, j :: 0 <= i < j < |entries| ==> entries[i].asn != entries[j].asn
  }

  ghost predicate Increasing(entries: seq<Entry>) {
    forall i, j :: 0 <= i < j < |entries| ==> entries[i].asn < entries[j].asn
  }

  /** Schema and time are right, every entry is usable, no number repeats, and there are enough. */
  ghost predicate Acceptable(d: Document, minimum: int) {
    && d.schema == SCHEMA && !d.zeroTime
    && (forall i :: 0 <= i < |d.entries| ==> Usable(d.entries[i]))
    && DistinctAsns(d.entries) && |d.entries| >= minimum
  }

  method ParseASNMetadataDocument(decoded: Option<Document>, minimum: int) returns (r: Option<seq<Entry>>)
    ensures r.Some? <==> decoded.Some? && Acceptable(decoded.value, minimum)
    ensures r.Some? ==> r.value == Sort(Map(decoded.value.entries, TrimName), ByAsn())
  {
    hide TrimSpace, Sort;
    if decoded.None? {
      return None;
    }
    var document := decoded.value;
    if document.schema != SCHEMA || document.zeroTime {
      return None;
    }
    var seen: set<nat> := {};
    var entries: seq<Entry> := [];
    for i := 0 to |document.entries|
      invariant entries == Map(document.entries[..i], TrimName)
      invariant forall j :: 0 <= j < i ==> Usable(document.entries[j])
      invariant DistinctAsns(document.entries[..i])
      invariant forall n :: n in seen <==> exists j :: 0 <= j < i && document.entries[j].asn == n
    {
      var entry := TrimName(document.entries[i]);
      if entry.asn == 0 || entry.name == "" {
        assert !Usable(document.entries[i]);
        return None;
      }
      if entry.asn in seen {
        return None;
      }
      seen := seen + {entry.asn};
      entries := entries + [entry];
    }
    assert document.entries[..|document.entries|] == document.entries;
    if |entries| < minimum {
      return None;
    }
    return Some(Sort(entries, ByAsn()));
  }

  lemma ByAsnOrder()
    ensures TotalPreorder(ByAsn())
  {
  }

  /** Sorting entries with distinct numbers gives the same entries in strictly increasing order. */
  lemma SortIncreasing(entries: seq<Entry>)
    requires DistinctAsns(entries)
    ensures Increasing(Sort(entries, ByAsn()))
    ensures forall e :: e in Sort(entries, ByAsn()) <==> e in entries
    ensures |Sort(entries, ByAsn())| == |entries|
  {
    ByAsnOrder();
    SortSorts(entries, ByAsn());
    KeysStayDistinct(Sort(entries, ByAsn()), entries, (e: Entry) => e.asn);
    hide Sort;
    var r := Sort(entries, ByAsn());
    forall i, j | 0 <= i < j < |r| ensures r[i].asn < r[j].asn {
      assert ByAsn()(r[i], r[j]);
    }
  }

  // ----- lookup -----

  /** The first entry with the number. */
  function Scan(entries: seq<Entry>, n: nat): Option<Entry> {
    if entries == [] then None else if entries[0].asn == n then Some(entries[0]) else Scan(entries[1..], n)
  }

  lemma {:induction false} ScanFinds(entries: seq<Entry>, n: nat)
    ensures Scan(entries, n).Some? ==> Scan(entries, n).value in entries && Scan(entries, n).value.asn == n
    ensures Scan(entries, n).None? ==> forall e :: e in entries ==> e.asn != n
  {
    if entries != [] && entries[0].asn != n {
      ScanFinds(entries[1..], n);
      assert entries == [entries[0]] + entries[1..];
    }
  }

  /** Where no number repeats, any entry with the number is the one a scan finds. */
  lemma ScanOnly(entries: seq<Entry>, e: Entry)
    requires DistinctAsns(entries) && e in entries
    ensures Scan(entries, e.asn) == Some(e)
  {
    hide Scan;
    ScanFinds(entries, e.asn);
    var f := Scan(entries, e.asn).value;
    var i :| 0 <= i < |entries| && entries[i] == e;
    var j :| 0 <= j < |entries| && entries[j] == f;
    assert i == j;
  }

  /** The smallest index at which the number is reached, and the entry there if it is the number's. */
  method SearchASN(entries: seq<Entry>, number: nat) returns (r: Option<Entry>)
    requires Increasing(entries)
    ensures r == Scan(entries, number)
  {
    hide Scan;
    var low, high := 0, |entries|;
    while low < high
      invariant 0 <= low <= high <= |entries|
      invariant forall k :: 0 <= k < low ==> entries[k].asn < number
      invariant forall k :: high <= k < |entries| ==> entries[k].asn >= number
    {
      var h := (low + high) / 2;
      if entries[h].asn < number {
        low := h + 1;
      } else {
        high := h;
      }
    }
    ScanFinds(entries, number);
    if low >= |entries| || entries[low].asn != number {
      return None;
    }
    ScanOnly(entries, entries[low]);
    return Some(entries[low]);
  }

  /** A scan finds the same entry in any rearrangement without repeats. */
  lemma ScanRearranged(a: seq<Entry>, b: seq<Entry>, n: nat)
    requires DistinctAsns(b) && forall e :: e in a <==> e in b
    ensures Scan(a, n) == Scan(b, n)
  {
    hide Scan;
    ScanFinds(a, n);
    ScanFinds(b, n);
    if Scan(a, n).Some? {
      ScanOnly(b, Scan(a, n).value);
    }
  }

  lemma TrimmedDistinct(entries: seq<Entry>)
    requires DistinctAsns(entries)
    ensures DistinctAsns(Map(entries, TrimName))
  {
  }

  lemma {:induction false} ScanTrimmed(entries: seq<Entry>, n: nat)
    ensures Scan(Map(entries, TrimName), n) ==
            match Scan(entries, n) case None => None case Some(e) => Some(TrimName(e))
  {
    if entries != [] {
      assert Map(entries, TrimName)[1..] == Map(entries[1..], TrimName);
      ScanTrimmed(entries[1..], n);
    }
  }

  /** What a lookup in an accepted document answers: a scan of the document as written, with the name trimmed. */
  lemma AcceptedLookup(d: Document, minimum: int, n: nat)
    requires Acceptable(d, minimum)
    ensures var entries := Sort(Map(d.entries, TrimName), ByAsn());
            && Increasing(entries) && |entries| == |d.entries|
            && Scan(entries, n) == match Scan(d.entries, n) case None => None case Some(e) => Some(TrimName(e))
  {
    var trimmed := Map(d.entries, TrimName);
    TrimmedDistinct(d.entries);
    SortIncreasing(trimmed);
    ScanTrimmed(d.entries, n);
    hide Sort, Scan, Increasing, DistinctAsns;
    ScanRearranged(Sort(trimmed, ByAsn()), trimmed, n);
  }

  // ----- which document -----

  /** A source: its document, if it could be fetched and decoded, and whether its manifest describes it. */
  datatype Source = Source(document: Option<Document>, described: bool)

  function Max(a: int, b: int): int {
    if a >= b then a else b
  }

  function RemoteMinimum(embedded: Document, minimum: int): int {
    Max(minimum, |embedded.entries| * 65 / 100)
  }

  ghost predicate Accepts(s: Source, minimum: int) {
    s.document.Some? && Acceptable(s.document.value, minimum) && s.described
  }

  /** The document a load settles on: the first acceptable remote one, else the embedded one. */
  ghost function Chosen(remotes: seq<Source>, embedded: Source, minimum: int): Option<Document> {
    if !Accepts(embedded, minimum) then None
    else if remotes == [] then embedded.document
    else if Accepts(remotes[0], RemoteMinimum(embedded.document.value, minimum)) then remotes[0].document
    else Chosen(remotes[1..], embedded, minimum)
  }

  method LoadASNMetadata(remotes: seq<Source>, embedded: Source, minimum: int) returns (r: Option<seq<Entry>>)
    ensures var d := Chosen(remotes, embedded, minimum);
            r == if d.None? then None else Some(Sort(Map(d.value.entries, TrimName), ByAsn()))
  {
    hide Sort, Acceptable;
    var embeddedEntries := ParseASNMetadataDocument(embedded.document, minimum);
    if embeddedEntries.None? || !embedded.described {
      return None;
    }
    assert |embeddedEntries.value| == |embedded.document.value.entries| by {
      AcceptedLookup(embedded.document.value, minimum, 0);
    }
    var minimumRemote := Max(minimum, |embeddedEntries.value| * 65 / 100);
    for index := 0 to |remotes|
      invariant Chosen(remotes, embedded, minimum) == Chosen(remotes[index..], embedded, minimum)
    {
      assert remotes[index..][1..] == remotes[index+1..];
      var entries := ParseASNMetadataDocument(remotes[index].document, minimumRemote);
      if entries.Some? && remotes[index].described {
        return entries;
      }
    }
    return embeddedEntries;
  }

  /** The source has an acceptable document that its manifest describes, with enough entries: at least the minimum and
      at least 65 in 100 of the embedded ones, rounded down. */
  ghost predicate Qualifies(s: Source, embedded: Document, minimum: int) {
    && s.described && s.document.Some? && Acceptable(s.document.value, minimum)
    && 100 * (|s.document.value.entries| + 1) > 65 * |embedded.entries|
  }

  lemma QualifiesExactly(s: Source, embedded: Document, minimum: int)
    ensures Accepts(s, RemoteMinimum(embedded, minimum)) <==> Qualifies(s, embedded, minimum)
  {
    hide DistinctAsns, Usable;
  }

  ghost predicate FirstFit(remotes: seq<Source>, embedded: Document, minimum: int, i: nat) {
    && i < |remotes| && Qualifies(remotes[i], embedded, minimum)
    && forall j: nat :: j < i ==> !Qualifies(remotes[j], embedded, minimum)
  }

  /** The chosen document is that of the first remote source that qualifies, else the embedded one; none when the
      embedded one is not acceptable itself. */
  lemma {:induction false} ChosenExactly(remotes: seq<Source>, embedded: Source, minimum: int)
    ensures var d := Chosen(remotes, embedded, minimum);
            if !Accepts(embedded, minimum) then d == None
            else
              var e := embedded.document.value;
              && (forall i: nat :: FirstFit(remotes, e, minimum, i) ==> d == remotes[i].document)
              && ((forall i: nat :: i < |remotes| ==> !Qualifies(remotes[i], e, minimum)) ==> d == Some(e))
  {
    hide Acceptable, Qualifies;
    if Accepts(embedded, minimum) && remotes != [] {
      QualifiesExactly(remotes[0], embedded.document.value, minimum);
      if !Qualifies(remotes[0], embedded.document.value, minimum) {
        ChosenExactly(remotes[1..], embedded, minimum);
        var e := embedded.document.value;
        forall i: nat | FirstFit(remotes, e, minimum, i) ensures i > 0 && FirstFit(remotes[1..], e, minimum, i - 1) {
          assert forall j: nat :: j < i - 1 ==> remotes[1..][j] == remotes[j+1];
        }
      }
    }
  }

  /** Whichever source is chosen is acceptable and has at least 65 in 100 of the embedded entries, rounded down. */
  lemma {:induction false} ChosenAcceptable(remotes: seq<Source>, embedded: Source, minimum: int)
    requires Chosen(remotes, embedded, minimum).Some?
    ensures var d := Chosen(remotes, embedded, minimum).value;
            Acceptable(d, minimum) && 100 * |d.entries| > 65 * |embedded.document.value.entries| - 100
  {
    hide DistinctAsns, Usable;
    if remotes != [] && !Accepts(remotes[0], RemoteMinimum(embedded.document.value, minimum)) {
      ChosenAcceptable(remotes[1..], embedded, minimum);
    }
  }

  /** No document; text that is no number; a number and what was found. */
  datatype Lookup = BadNumber | NoRegistry | Found(entry: Option<Entry>)

  method LookupASNMetadata(remotes: seq<Source>, embedded: Source, minimum: int, asn: string) returns (r: Lookup)
    ensures r == LookupResult(remotes, embedded, minimum, asn)
  {
    hide Sort, Scan, Chosen, Number, Format, Increasing;
    var normalized := NormalizeASN(asn);
    if normalized.None? {
      return BadNumber;
    }
    FormatValue(Number(asn).value);
    var number := Value(normalized.value);
    var entries := LoadASNMetadata(remotes, embedded, minimum);
    if entries.None? {
      return NoRegistry;
    }
    ghost var d := Chosen(remotes, embedded, minimum).value;
    ChosenAcceptable(remotes, embedded, minimum);
    AcceptedLookup(d, minimum, number);
    var found := SearchASN(entries.value, number);
    return Found(found);
  }

  /** Binary search in the sorted registry is a linear scan of the chosen document for the number the text denotes. */
  ghost function LookupResult(remotes: seq<Source>, embedded: Source, minimum: int, asn: string): Lookup {
    var n, d := Number(asn), Chosen(remotes, embedded, minimum);
    if n.None? then BadNumber
    else if d.None? then NoRegistry
    else
      match Scan(d.value.entries, n.value)
      case None => Found(None)
      case Some(e) => Found(Some(TrimName(e)))
  }
}
