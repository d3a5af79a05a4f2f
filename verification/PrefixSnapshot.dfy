/** Reading a prefix snapshot: checked, lower-cased, deduplicated and sorted lines. */
module PrefixSnapshot {
  import opened Lists
  import opened Sorting
  import opened Text
  import opened PrefixLookup

  predicate IsFragment(v: string) {
    v != "" && forall i :: 0 <= i < |v| ==> '0' <= v[i] <= '9' || 'a' <= v[i] <= 'f' || 'A' <= v[i] <= 'F' || v[i] == ':'
  }

  predicate LineOk(net: NetIP, v: string) {
    if '/' in v then net.prefix(v).Some? && net.prefix(v).value.addr.v6 else IsFragment(v)
  }

  predicate NotBlank(v: string) {
    v != ""
  }

  /** The trimmed lines that are not blank. */
  function Values(data: string): seq<string> {
    Filter(Map(Split(data, '\n'), TrimSpace), NotBlank)
  }

  /** The first occurrence of every element. */
  function Dedupe(s: seq<string>): (r: seq<string>) {
    if s == [] then []
    else
      var front := Dedupe(s[..|s|-1]);
      if s[|s|-1] in front then front else front + [s[|s|-1]]
  }

  function Alphabetical(): (string, string) -> bool {
    (a: string, b: string) => LessEq(a, b)
  }

  function Canon(values: seq<string>): seq<string> {
    Sort(Dedupe(Map(values, ToLower)), Alphabetical())
  }

  predicate AllOk(net: NetIP, values: seq<string>) {
    forall i :: 0 <= i < |values| ==> LineOk(net, values[i])
  }

  function Parse(net: NetIP, data: string): Option<seq<string>> {
    var values := Values(data);
    if values == [] || !AllOk(net, values) then None else Some(Canon(values))
  }

  // ----- deduplication -----

  lemma {:induction false} DedupeKeeps(s: seq<string>)
    ensures Distinct(Dedupe(s)) && |Dedupe(s)| <= |s|
    ensures forall x :: x in Dedupe(s) <==> x in s
    ensures |Dedupe(s)| == |s| <==> Distinct(s)
    ensures Distinct(s) ==> Dedupe(s) == s
  {
    if s != [] {
      var front, last := s[..|s|-1], s[|s|-1];
      DedupeKeeps(front);
      assert s == front + [last];
      if last in front {
        var i :| 0 <= i < |front| && front[i] == last;
        assert s[i] == s[|s|-1];
      } else if Distinct(front) {
        forall i, j | 0 <= i < j < |s| ensures s[i] != s[j] {
          assert s[i] == front[i];
          assert j < |front| ==> s[j] == front[j];
        }
      }
    }
  }

  lemma DedupeEmpty(s: seq<string>)
    requires Dedupe(s) == []
    ensures s == []
  {
    DedupeKeeps(s);
    FirstIsMember(s);
  }

  lemma DedupeStep(s: seq<string>, x: string)
    ensures Dedupe(s + [x]) == if x in Dedupe(s) then Dedupe(s) else Dedupe(s) + [x]
  {
    assert (s + [x])[..|s|] == s;
  }

  lemma MapStep<T, U>(s: seq<T>, x: T, f: T -> U)
    ensures Map(s + [x], f) == Map(s, f) + [f(x)]
  {
  }

  lemma AlphabeticalOrder()
    ensures TotalPreorder(Alphabetical())
  {
    forall x: string, y: string ensures Alphabetical()(x, y) || Alphabetical()(y, x) {
      LessTotal(x, y);
    }
    forall x: string, y: string, z: string | Alphabetical()(x, y) && Alphabetical()(y, z) ensures Alphabetical()(x, z) {
      if Less(x, y) && Less(y, z) {
        LessTransitive(x, y, z);
      }
    }
  }

  lemma AlphabeticalSeparates(s: seq<string>)
    ensures Separated(s, Alphabetical())
  {
    forall x, y | x in s && y in s && Alphabetical()(x, y) && Alphabetical()(y, x) ensures x == y {
      LessTotal(x, y);
    }
  }

  ghost predicate StrictlySorted(s: seq<string>) {
    forall i, j :: 0 <= i < j < |s| ==> Less(s[i], s[j])
  }

  lemma IndexOf(s: seq<string>, x: string) returns (i: nat)
    requires x in s
    ensures i < |s| && s[i] == x
  {
    i :| 0 <= i < |s| && s[i] == x;
  }

  /** A sorted deduplicated list is strictly sorted, whatever it was made from. */
  lemma SortStrict(s: seq<string>)
    requires Distinct(s)
    ensures StrictlySorted(Sort(s, Alphabetical()))
    ensures forall x :: x in Sort(s, Alphabetical()) <==> x in s
    ensures |Sort(s, Alphabetical())| == |s|
  {
    AlphabeticalOrder();
    SortSorts(s, Alphabetical());
    var r := Sort(s, Alphabetical());
    KeysStayDistinct(r, s, (x: string) => x);
    hide Sort, Less;
    forall i, j | 0 <= i < j < |r| ensures Less(r[i], r[j]) {
      assert Alphabetical()(r[i], r[j]);
    }
  }

  lemma StrictIsSorted(s: seq<string>)
    requires StrictlySorted(s)
    ensures Distinct(s) && Sort(s, Alphabetical()) == s
  {
    forall i, j | 0 <= i < j < |s| ensures s[i] != s[j] && Alphabetical()(s[i], s[j]) {
      LessTotal(s[i], s[j]);
    }
    AlphabeticalOrder();
    SortSorts(s, Alphabetical());
    AlphabeticalSeparates(Sort(s, Alphabetical()));
    hide Sort, Less;
    OrderedUnique(Sort(s, Alphabetical()), s, Alphabetical());
  }

  // ----- the reader -----

  method ParseASNPrefixLines(net: NetIP, data: string) returns (r: Option<seq<string>>)
    ensures r == Parse(net, data)
  {
    var seen: set<string> := {};
    var values: seq<string> := [];
    var parts := Split(data, '\n');
    ghost var lines := Map(parts, TrimSpace);
    hide Split, Sort, TrimSpace, ToLower, LineOk, Dedupe, Filter, Map;
    assert Dedupe([]) == [] by { DedupeKeeps([]); }
    for i := 0 to |parts|
      invariant values == Dedupe(Map(Filter(lines[..i], NotBlank), ToLower))
      invariant forall x :: x in seen <==> x in values
      invariant AllOk(net, Filter(lines[..i], NotBlank))
    {
      ghost var before := Filter(lines[..i], NotBlank);
      FilterStep(lines, i, NotBlank);
      var value := TrimSpace(parts[i]);
      assert value == lines[i];
      if value == "" {
        assert Filter(lines[..i+1], NotBlank) == before;
        continue;
      }
      ghost var after := before + [value];
      assert Filter(lines[..i+1], NotBlank) == after;
      assert after[|before|] == value;
      if !LineOk(net, value) {
        BadLine(net, lines, i);
        return None;
      }
      MapStep(before, value, ToLower);
      DedupeStep(Map(before, ToLower), ToLower(value));
      value := ToLower(value);
      if value in seen {
        continue;
      }
      seen := seen + {value};
      values := values + [value];
    }
    assert lines[..|parts|] == lines;
    if |values| == 0 {
      DedupeEmpty(Map(Values(data), ToLower));
      return None;
    }
    assert Values(data) != [];
    return Some(Sort(values, Alphabetical()));
  }

  /** One bad line spoils the whole snapshot. */
  lemma BadLine(net: NetIP, lines: seq<string>, i: nat)
    requires i < |lines| && NotBlank(lines[i]) && !LineOk(net, lines[i])
    ensures Filter(lines, NotBlank) != [] && !AllOk(net, Filter(lines, NotBlank))
  {
    FilterMembers(lines, NotBlank);
    hide LineOk;
    var k := IndexOf(Filter(lines, NotBlank), lines[i]);
  }

  /** A line the reader takes: an IPv6 network, or a fragment of hexadecimal digits and colons. */
  ghost predicate GoodLine(net: NetIP, v: string) {
    if '/' in v then exists n :: net.prefix(v) == Some(n) && n.addr.v6
    else v != "" && forall c :: c in v ==> c in "0123456789abcdefABCDEF:"
  }

  lemma LineOkExactly(net: NetIP, v: string)
    ensures LineOk(net, v) <==> GoodLine(net, v)
  {
    if '/' !in v {
      forall c | c in v ensures c in "0123456789abcdefABCDEF:" <==>
        '0' <= c <= '9' || 'a' <= c <= 'f' || 'A' <= c <= 'F' || c == ':' {
        FragmentChar(c);
      }
      assert forall i :: 0 <= i < |v| ==> v[i] in v;
    }
  }

  lemma FragmentChar(c: char)
    ensures c in "0123456789abcdefABCDEF:" <==> '0' <= c <= '9' || 'a' <= c <= 'f' || 'A' <= c <= 'F' || c == ':'
  {
    var digits := "0123456789abcdefABCDEF:";
    if '0' <= c <= '9' {
      assert digits[c as int - '0' as int] == c;
    } else if 'a' <= c <= 'f' {
      assert digits[c as int - 'a' as int + 10] == c;
    } else if 'A' <= c <= 'F' {
      assert digits[c as int - 'A' as int + 16] == c;
    } else if c == ':' {
      assert digits[22] == c;
    }
  }

  /** The snapshot has a line that is not blank, and all such lines are good. */
  ghost predicate Readable(net: NetIP, data: string) {
    && (exists raw :: raw in Split(data, '\n') && TrimSpace(raw) != "")
    && (forall raw :: raw in Split(data, '\n') && TrimSpace(raw) != "" ==> GoodLine(net, TrimSpace(raw)))
  }

  /** The reader accepts exactly the readable snapshots. */
  lemma ParseExactly(net: NetIP, data: string)
    ensures Parse(net, data).Some? <==> Readable(net, data)
  {
    var parts, values := Split(data, '\n'), Values(data);
    var lines := Map(parts, TrimSpace);
    FilterMembers(lines, NotBlank);
    hide Split, TrimSpace, Filter, GoodLine, LineOk, Canon;
    forall i | 0 <= i < |values| ensures exists raw :: raw in parts && TrimSpace(raw) == values[i] != "" {
      assert values[i] in lines;
      var k := IndexOf(lines, values[i]);
      assert parts[k] in parts;
    }
    forall raw | raw in parts && TrimSpace(raw) != "" ensures TrimSpace(raw) in values {
      var k := IndexOf(parts, raw);
      assert lines[k] in lines;
    }
    forall v ensures LineOk(net, v) <==> GoodLine(net, v) {
      LineOkExactly(net, v);
    }
    if Parse(net, data).Some? {
      assert values[0] != "";
    }
    if Readable(net, data) {
      forall i | 0 <= i < |values| ensures LineOk(net, values[i]) {}
    }
  }

  // ----- the canonical form -----

  /** A line as the reader stores it. */
  predicate CanonicalLine(net: NetIP, v: string) {
    v != "" && Trimmed(v) && '\n' !in v && IsLower(v) && LineOk(net, v)
  }

  /** A prefix means the same in either case. */
  ghost predicate CaseBlind(net: NetIP) {
    forall v :: net.prefix(v).Some? ==> net.prefix(ToLower(v)) == net.prefix(v)
  }

  lemma {:induction false} SplitParts(s: string, sep: char)
    ensures forall p :: p in Split(s, sep) ==> sep !in p
  {
    if s != "" {
      SplitParts(s[1..], sep);
      var rest := Split(s[1..], sep);
      forall p | p in Split(s, sep) ensures sep !in p {
        if s[0] == sep {
          assert p == "" || p in rest;
        } else {
          assert sep !in rest[0];
          assert p == [s[0]] + rest[0] || p in rest[1..];
        }
      }
    }
  }

  lemma ValuesShape(data: string)
    ensures forall v :: v in Values(data) ==> v != "" && Trimmed(v) && '\n' !in v
  {
    hide Split, TrimSpace, Trimmed;
    var parts := Split(data, '\n');
    var lines := Map(parts, TrimSpace);
    FilterMembers(lines, NotBlank);
    SplitParts(data, '\n');
    forall v | v in Values(data) ensures v != "" && Trimmed(v) && '\n' !in v {
      var i :| 0 <= i < |lines| && lines[i] == v;
      assert parts[i] in parts;
    }
  }

  lemma LowerKeepsMarks(v: string)
    ensures '/' in v <==> '/' in ToLower(v)
    ensures '\n' in v <==> '\n' in ToLower(v)
  {
    forall c: char | c == '/' || c == '\n' ensures c in v <==> c in ToLower(v) {
      if c in v {
        var i :| 0 <= i < |v| && v[i] == c;
        assert ToLower(v)[i] == c;
      }
      if c in ToLower(v) {
        var i :| 0 <= i < |v| && ToLower(v)[i] == c;
        assert v[i] == c;
      }
    }
  }

  lemma LowerKeepsFragment(v: string)
    requires IsFragment(v)
    ensures IsFragment(ToLower(v))
  {
  }

  lemma LowerLine(net: NetIP, v: string)
    requires CaseBlind(net) && v != "" && Trimmed(v) && '\n' !in v && LineOk(net, v)
    ensures CanonicalLine(net, ToLower(v))
  {
    LowerKeepsMarks(v);
    LowerTrimmed(v);
    LowerIdempotent(v);
    hide ToLower, Trimmed, TrimSpace;
    if '/' !in v {
      LowerKeepsFragment(v);
    }
  }

  lemma LoweredCanonical(net: NetIP, values: seq<string>)
    requires CaseBlind(net) && AllOk(net, values)
    requires forall v :: v in values ==> v != "" && Trimmed(v) && '\n' !in v
    ensures forall v :: v in Map(values, ToLower) ==> CanonicalLine(net, v)
  {
    hide CanonicalLine, LineOk, Trimmed, CaseBlind, ToLower;
    var low := Map(values, ToLower);
    forall v | v in low ensures CanonicalLine(net, v) {
      var i := IndexOf(low, v);
      assert values[i] in values && LineOk(net, values[i]);
      LowerLine(net, values[i]);
    }
  }

  /** The reader's output: strictly sorted canonical lines, one for each value up to case. */
  lemma ParseCanonical(net: NetIP, data: string)
    requires CaseBlind(net) && Parse(net, data).Some?
    ensures var r := Parse(net, data).value;
            && r != [] && StrictlySorted(r)
            && (forall v :: v in r ==> CanonicalLine(net, v))
            && (forall v :: v in r <==> v in Map(Values(data), ToLower))
  {
    hide Values, Sort, Dedupe, CanonicalLine, Trimmed, CaseBlind, ToLower, StrictlySorted;
    var values := Values(data);
    var low := Map(values, ToLower);
    ValuesShape(data);
    LoweredCanonical(net, values);
    DedupeKeeps(low);
    hide Distinct, AllOk;
    SortStrict(Dedupe(low));
    FirstIsMember(low);
  }

  /** Joined trimmed lines read back as they were, with or without a final newline. */
  lemma ValuesOfJoin(s: seq<string>)
    requires s != [] && forall v :: v in s ==> v != "" && Trimmed(v) && '\n' !in v
    ensures Values(Join(s, '\n') + "\n") == s && Values(Join(s, '\n')) == s
  {
    hide TrimSpace, Trimmed;
    SplitOfJoin(s, '\n');
    hide Split, Join;
    assert ['\n'] == "\n" && Trimmed("") && TrimSpace("") == "" by { BlankTrims(); }
    var whole := Split(Join(s, '\n'), '\n');
    forall i | 0 <= i < |s| ensures TrimSpace(s[i]) == s[i] && NotBlank(s[i]) {
      assert s[i] in s;
    }
    assert Map(s, TrimSpace) == s;
    FilterAll(s, NotBlank);
    MapStep(s, "", TrimSpace);
    FilterStep(s + [""], |s|, NotBlank);
    assert (s + [""])[..|s|] == s && (s + [""])[..|s|+1] == s + [""];
  }

  lemma BlankTrims()
    ensures Trimmed("") && TrimSpace("") == ""
  {
  }

  lemma LowerList(s: seq<string>)
    requires forall v :: v in s ==> IsLower(v)
    ensures Map(s, ToLower) == s
  {
    forall i | 0 <= i < |s| ensures ToLower(s[i]) == s[i] {
      assert s[i] in s;
    }
  }

  /** A strictly sorted list of canonical lines is exactly what its own text reads as. */
  lemma ReadBack(net: NetIP, s: seq<string>)
    requires s != [] && StrictlySorted(s) && forall v :: v in s ==> CanonicalLine(net, v)
    ensures Parse(net, Join(s, '\n') + "\n") == Some(s) && Parse(net, Join(s, '\n')) == Some(s)
    ensures Values(Join(s, '\n') + "\n") == s && Distinct(s) && Map(s, ToLower) == s
  {
    hide Less, Trimmed, TrimSpace, ToLower, LineOk, Sort, Values;
    ValuesOfJoin(s);
    LowerList(s);
    StrictIsSorted(s);
    DedupeKeeps(s);
    hide StrictlySorted, Dedupe;
    forall i | 0 <= i < |s| ensures LineOk(net, s[i]) {
      assert s[i] in s;
    }
  }

  /** Reading is idempotent: the joined output reads as itself. */
  lemma Reparse(net: NetIP, data: string)
    requires CaseBlind(net) && Parse(net, data).Some?
    ensures var r := Parse(net, data).value;
            Parse(net, Join(r, '\n')) == Some(r) && Parse(net, Join(r, '\n') + "\n") == Some(r)
  {
    ParseCanonical(net, data);
    hide Parse;
    ReadBack(net, Parse(net, data).value);
  }

  // ----- looking up raw lines and parsed lines -----

  /** Fragments are written in lower case. */
  predicate FragmentsLower(data: string) {
    forall i :: 0 <= i < |Values(data)| ==> '/' in Values(data)[i] || IsLower(Values(data)[i])
  }

  /** A trimmed network line scores by what its text parses to. */
  lemma NetworkLineScore(q: Query, v: string, other: string)
    requires Trimmed(v) && Trimmed(other) && '/' in v && '/' in other && q.net.prefix(v) == q.net.prefix(other)
    ensures Score(q, v) == Score(q, other)
  {
    assert TrimSpace(v) == v && TrimSpace(other) == other;
    hide Trimmed, TrimSpace, Contains, HasPrefix, HexBits;
  }

  lemma LineScoresSame(q: Query, v: string)
    requires CaseBlind(q.net) && Trimmed(v) && v != "" && LineOk(q.net, v) && ('/' in v || IsLower(v))
    ensures Score(q, ToLower(v)) == Score(q, v)
  {
    hide Score, Trimmed;
    if '/' in v {
      LowerKeepsMarks(v);
      LowerTrimmed(v);
      hide ToLower, TrimSpace;
      NetworkLineScore(q, v, ToLower(v));
    }
  }

  lemma RawLineScores(q: Query, raw: string)
    ensures Score(q, raw) == Score(q, TrimSpace(raw))
    ensures TrimSpace(raw) == "" ==> Score(q, raw) == None
  {
    hide Contains, HasPrefix, HexBits;
  }

  lemma ValuesMembers(data: string)
    ensures forall v :: v in Values(data) <==> v != "" && v in Map(Split(data, '\n'), TrimSpace)
  {
    FilterMembers(Map(Split(data, '\n'), TrimSpace), NotBlank);
  }

  lemma ValueScores(q: Query, data: string, k: nat)
    requires CaseBlind(q.net) && AllOk(q.net, Values(data)) && FragmentsLower(data) && k < |Values(data)|
    ensures Score(q, ToLower(Values(data)[k])) == Score(q, Values(data)[k])
  {
    ValuesShape(data);
    hide Score, Values, CaseBlind, Trimmed, ToLower, IsLower, LineOk;
    assert Values(data)[k] in Values(data);
    LineScoresSame(q, Values(data)[k]);
  }

  lemma CoveredRaw(q: Query, data: string, s: nat)
    requires CaseBlind(q.net) && Parse(q.net, data).Some? && FragmentsLower(data)
    requires Covered(q, Split(data, '\n'), s)
    ensures Covered(q, Parse(q.net, data).value, s)
  {
    hide Score, Split, TrimSpace, ToLower, Canon, CanonicalLine, StrictlySorted, CaseBlind, Values, FragmentsLower, AllOk;
    ParseCanonical(q.net, data);
    ValuesMembers(data);
    var raw, values, r := Split(data, '\n'), Values(data), Parse(q.net, data).value;
    var lines, low := Map(raw, TrimSpace), Map(values, ToLower);
    var i :| 0 <= i < |raw| && Score(q, raw[i]) == Some(s);
    RawLineScores(q, raw[i]);
    assert lines[i] in lines;
    var k := IndexOf(values, lines[i]);
    ValueScores(q, data, k);
    assert low[k] in low;
    var j := IndexOf(r, low[k]);
    assert Score(q, r[j]) == Some(s);
  }

  lemma CoveredParsed(q: Query, data: string, s: nat)
    requires CaseBlind(q.net) && Parse(q.net, data).Some? && FragmentsLower(data)
    requires Covered(q, Parse(q.net, data).value, s)
    ensures Covered(q, Split(data, '\n'), s)
  {
    hide Score, Split, TrimSpace, ToLower, Canon, CanonicalLine, StrictlySorted, CaseBlind, Values, FragmentsLower, AllOk;
    ParseCanonical(q.net, data);
    ValuesMembers(data);
    var raw, values, r := Split(data, '\n'), Values(data), Parse(q.net, data).value;
    var lines, low := Map(raw, TrimSpace), Map(values, ToLower);
    var j :| 0 <= j < |r| && Score(q, r[j]) == Some(s);
    assert r[j] in r;
    var k := IndexOf(low, r[j]);
    ValueScores(q, data, k);
    assert values[k] in values;
    var i := IndexOf(lines, values[k]);
    RawLineScores(q, raw[i]);
    assert Score(q, raw[i]) == Some(s);
  }

  predicate AllParse(net: NetIP, files: map<string, string>) {
    forall a :: a in files ==> Parse(net, files[a]).Some? && FragmentsLower(files[a])
  }

  /** The embedded table: every file split into lines, nothing more. */
  function RawTable(files: map<string, string>): (r: Registry) {
    map a | a in files :: Split(files[a], '\n')
  }

  /** The refreshed table: every file read and checked. */
  function ParsedTable(net: NetIP, files: map<string, string>): (r: Registry)
    requires AllParse(net, files)
  {
    map a | a in files :: Parse(net, files[a]).value
  }

  lemma CandidatesAgree(q: Query, files: map<string, string>, a: string, s: nat)
    requires CaseBlind(q.net) && AllParse(q.net, files)
    ensures Candidate(q, RawTable(files), a, s) <==> Candidate(q, ParsedTable(q.net, files), a, s)
  {
    hide Covered, Parse, Split, FragmentsLower, CaseBlind;
    if a in files {
      if Candidate(q, RawTable(files), a, s) {
        CoveredRaw(q, files[a], s);
      }
      if Candidate(q, ParsedTable(q.net, files), a, s) {
        CoveredParsed(q, files[a], s);
      }
    }
  }

  /** A table of raw files and the table of their parsed lines give every query the same answer. */
  lemma RawAndParsedAgree(q: Query, files: map<string, string>, asn: string)
    requires CaseBlind(q.net) && AllParse(q.net, files)
    ensures Answers(q, RawTable(files), asn) <==> Answers(q, ParsedTable(q.net, files), asn)
  {
    hide Candidate, Answers, AllParse, RawTable, ParsedTable, CaseBlind;
    forall a, s: nat
      ensures Candidate(q, RawTable(files), a, s) <==> Candidate(q, ParsedTable(q.net, files), a, s)
    {
      CandidatesAgree(q, files, a, s);
    }
    SameCandidates(q, RawTable(files), q, ParsedTable(q.net, files), asn);
  }

  /** A fragment with an upper-case letter matches nothing as a raw line: the text asked about is lower case. */
  lemma UpperFragmentIsSilent(q: Query, v: string)
    requires IsLower(q.text) && '/' !in TrimSpace(v) && !IsLower(TrimSpace(v))
    ensures Score(q, v) == None
  {
    hide TrimSpace, HexBits, IsLower;
    if HasPrefix(q.text, TrimSpace(v)) {
      PrefixIsLower(q.text, TrimSpace(v));
    }
  }
}
